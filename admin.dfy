/** The admin controller: the singleton admin signup, hospital creation, editing and
    deletion, and the links between hospitals and doctors. Every state-changing handler is
    a method on the store, proved equal to a reply function whose contract states what the
    handler promises; lemmas relate several handlers. */
module AdminController {
  import opened Documents
  import opened Js

  // ---------------------------------------------------------------------------
  // Signup and the singleton admin
  // ---------------------------------------------------------------------------

  /** `Admin.findOne({ isAdmin: true })` finds a record. */
  predicate FlaggedAdminExists(db: Db)
  {
    exists a :: a in db.admins && db.admins[a].isAdmin
  }

  /** The singleton invariant: at most one admin record, carrying the admin flag. */
  ghost predicate SingleAdmin(db: Db)
  {
    |db.admins| <= 1 && forall a :: a in db.admins ==> db.admins[a].isAdmin
  }

  /** Admin signup. `passwordHash` is what the hashing primitive returned; `newId` is the
      fresh id the store gives the new record. */
  function SignupReply(db: Db, name: string, email: string, passwordHash: string, newId: Id): (r: Reply)
    requires newId !in db.admins
    ensures FlaggedAdminExists(db) ==> r == Reply(BadRequest, db)
    ensures !FlaggedAdminExists(db) ==> r.status == Created
    ensures r.status == Created ==>
      r.db == db.(admins := db.admins[newId := Admin(name, email, passwordHash, true)])
  {
    if FlaggedAdminExists(db) then Reply(BadRequest, db)
    else Reply(Created, db.(admins := db.admins[newId := Admin(name, email, passwordHash, true)]))
  }

  method Signup(store: Store, name: string, email: string, passwordHash: string, newId: Id)
    returns (status: Status)
    requires newId !in store.admins
    requires SingleAdmin(store.State())
    modifies store
    ensures Reply(status, store.State()) == SignupReply(old(store.State()), name, email, passwordHash, newId)
    ensures SingleAdmin(store.State())
  {
    SignupKeepsSingleAdmin(store.State(), name, email, passwordHash, newId);
    if exists a :: a in store.admins && store.admins[a].isAdmin {
      return BadRequest;
    }
    var admin := Admin(name, email, passwordHash, true);
    store.admins := store.admins[newId := admin];
    status := Created;
  }

  /** Signup never creates a second admin. */
  lemma SignupKeepsSingleAdmin(db: Db, name: string, email: string, passwordHash: string, newId: Id)
    requires newId !in db.admins
    requires SingleAdmin(db)
    ensures SingleAdmin(SignupReply(db, name, email, passwordHash, newId).db)
  {
    if !FlaggedAdminExists(db) {
      assert forall a :: a !in db.admins;
      assert db.admins[newId := Admin(name, email, passwordHash, true)].Keys == {newId};
    }
  }

  /** Once a signup has succeeded, every later signup is refused, whatever its email. */
  lemma SecondSignupRefused(db: Db, name: string, email: string, passwordHash: string, newId: Id,
                            name': string, email': string, passwordHash': string, newId': Id)
    requires newId !in db.admins
    requires SignupReply(db, name, email, passwordHash, newId).status == Created
    requires newId' !in SignupReply(db, name, email, passwordHash, newId).db.admins
    ensures var db' := SignupReply(db, name, email, passwordHash, newId).db;
            SignupReply(db', name', email', passwordHash', newId') == Reply(BadRequest, db')
  {
    var db' := SignupReply(db, name, email, passwordHash, newId).db;
    assert newId in db'.admins && db'.admins[newId].isAdmin;
  }

  /** The `/exists` endpoint: `Admin.findOne()` finds any admin record at all. */
  function AdminExists(db: Db): (exists_: bool)
    ensures exists_ <==> exists a :: a in db.admins
  {
    db.admins != map[]
  }

  /** Under the singleton invariant the endpoint and the signup guard agree, so signup
      succeeds exactly when the endpoint reports no admin. */
  lemma AdminExistsMatchesGuard(db: Db, name: string, email: string, passwordHash: string, newId: Id)
    requires SingleAdmin(db) && newId !in db.admins
    ensures AdminExists(db) == FlaggedAdminExists(db)
    ensures SignupReply(db, name, email, passwordHash, newId).status == Created <==> !AdminExists(db)
  {
    if AdminExists(db) {
      var a :| a in db.admins;
      assert db.admins[a].isAdmin;
    }
  }

  // ---------------------------------------------------------------------------
  // Hospitals
  // ---------------------------------------------------------------------------

  function AddHospitalReply(db: Db, user: Option<Caller>, name: string, city: string, newId: Id): (r: Reply)
    requires newId !in db.hospitals
    ensures user == None ==> r == Reply(ServerError, db)
    ensures user == Some(Caller(false)) ==> r == Reply(Forbidden, db)
    ensures IsAdmin(user) ==> r.status == Created
    ensures r.status == Created ==>
      r.db == db.(hospitals := db.hospitals[newId := Hospital(name, city, [])])
  {
    if AdminGate(user).Some? then Reply(AdminGate(user).value, db)
    else Reply(Created, db.(hospitals := db.hospitals[newId := Hospital(name, city, [])]))
  }

  method AddHospital(store: Store, user: Option<Caller>, name: string, city: string, newId: Id)
    returns (status: Status)
    requires newId !in store.hospitals
    modifies store
    ensures Reply(status, store.State()) == AddHospitalReply(old(store.State()), user, name, city, newId)
  {
    var refused := AdminGate(user);
    if refused.Some? {
      return refused.value;
    }
    store.hospitals := store.hospitals[newId := Hospital(name, city, [])];
    status := Created;
  }

  /** The admin's list of every doctor. */
  function GetAllDoctors(db: Db, user: Option<Caller>): (r: Response<map<Id, Doctor>>)
    ensures user == None ==> r == Failed(ServerError)
    ensures user == Some(Caller(false)) ==> r == Failed(Forbidden)
    ensures IsAdmin(user) ==> r == Sent(db.doctors)
  {
    if AdminGate(user).Some? then Failed(AdminGate(user).value) else Sent(db.doctors)
  }

  /** Editing a hospital: each of `name` and `city` replaces the stored value only when it is
      truthy, so an empty or absent value keeps the old one; the doctor list is never touched. */
  function EditHospitalReply(db: Db, user: Option<Caller>, hid: Id, name: string, city: string): (r: Reply)
    ensures user == None ==> r == Reply(ServerError, db)
    ensures user == Some(Caller(false)) ==> r == Reply(Forbidden, db)
    ensures IsAdmin(user) && hid !in db.hospitals ==> r == Reply(NotFound, db)
    ensures IsAdmin(user) && hid in db.hospitals ==>
      && r.status == Ok
      && r.db == db.(hospitals := r.db.hospitals)
      && r.db.hospitals.Keys == db.hospitals.Keys
      && (forall o :: o in db.hospitals && o != hid ==> r.db.hospitals[o] == db.hospitals[o])
      && r.db.hospitals[hid].doctors == db.hospitals[hid].doctors
      && r.db.hospitals[hid].name == (if name == "" then db.hospitals[hid].name else name)
      && r.db.hospitals[hid].city == (if city == "" then db.hospitals[hid].city else city)
  {
    if AdminGate(user).Some? then Reply(AdminGate(user).value, db)
    else if hid !in db.hospitals then Reply(NotFound, db)
    else
      var h := db.hospitals[hid];
      Reply(Ok, db.(hospitals := db.hospitals[hid := h.(name := Or(name, h.name), city := Or(city, h.city))]))
  }

  method EditHospital(store: Store, user: Option<Caller>, hid: Id, name: string, city: string)
    returns (status: Status)
    modifies store
    ensures Reply(status, store.State()) == EditHospitalReply(old(store.State()), user, hid, name, city)
  {
    var refused := AdminGate(user);
    if refused.Some? {
      return refused.value;
    }
    if hid !in store.hospitals {
      return NotFound;
    }
    var hospital := store.hospitals[hid];
    hospital := hospital.(name := Or(name, hospital.name));
    hospital := hospital.(city := Or(city, hospital.city));
    store.hospitals := store.hospitals[hid := hospital];
    status := Ok;
  }

  /** The filter `{ hospital: hid }` of the bulk update: the doctor's hospital list holds `hid`. */
  predicate References(d: Doctor, hid: Id)
  {
    d.hospital.Some? && hid in d.hospital.value
  }

  /** The doctors after `updateMany({ hospital: hid }, { $set: { hospital: null } })`. */
  function ClearRefs(doctors: map<Id, Doctor>, hid: Id): (r: map<Id, Doctor>)
    ensures r.Keys == doctors.Keys
    ensures forall d :: d in r ==> !References(r[d], hid)
    ensures forall d :: d in r ==> r[d] == doctors[d].(hospital := r[d].hospital)
    ensures forall d :: d in r && !References(doctors[d], hid) ==> r[d] == doctors[d]
    ensures forall d :: d in r && References(doctors[d], hid) ==> r[d].hospital == None
  {
    map d | d in doctors :: if References(doctors[d], hid) then doctors[d].(hospital := None) else doctors[d]
  }

  /** The bulk update, one matching doctor at a time. */
  method ClearHospitalRefs(doctors: map<Id, Doctor>, hid: Id) returns (r: map<Id, Doctor>)
    ensures r == ClearRefs(doctors, hid)
  {
    r := doctors;
    var todo := doctors.Keys;
    while todo != {}
      invariant todo <= doctors.Keys && r.Keys == doctors.Keys
      invariant forall d :: d in todo ==> r[d] == doctors[d]
      invariant forall d :: d in doctors && d !in todo ==> r[d] == ClearRefs(doctors, hid)[d]
      decreases todo
    {
      var d :| d in todo;
      if References(r[d], hid) {
        r := r[d := r[d].(hospital := None)];
      }
      todo := todo - {d};
    }
  }

  /** Deleting a hospital removes its record and nulls the whole `hospital` field of every
      doctor that lists it, whatever other hospitals that field also held. */
  function DeleteHospitalReply(db: Db, user: Option<Caller>, hid: Id): (r: Reply)
    ensures user == None ==> r == Reply(ServerError, db)
    ensures user == Some(Caller(false)) ==> r == Reply(Forbidden, db)
    ensures IsAdmin(user) && hid !in db.hospitals ==> r == Reply(NotFound, db)
    ensures IsAdmin(user) && hid in db.hospitals ==>
      && r.status == Ok
      && r.db.hospitals == db.hospitals - {hid}
      && r.db.doctors == ClearRefs(db.doctors, hid)
      && r.db.admins == db.admins && r.db.patients == db.patients
  {
    if AdminGate(user).Some? then Reply(AdminGate(user).value, db)
    else if hid !in db.hospitals then Reply(NotFound, db)
    else Reply(Ok, db.(hospitals := db.hospitals - {hid}, doctors := ClearRefs(db.doctors, hid)))
  }

  method DeleteHospital(store: Store, user: Option<Caller>, hid: Id) returns (status: Status)
    modifies store
    ensures Reply(status, store.State()) == DeleteHospitalReply(old(store.State()), user, hid)
  {
    var refused := AdminGate(user);
    if refused.Some? {
      return refused.value;
    }
    if hid !in store.hospitals {
      return NotFound;
    }
    store.hospitals := store.hospitals - {hid};
    var cleared := ClearHospitalRefs(store.doctors, hid);
    store.doctors := cleared;
    status := Ok;
  }

  // ---------------------------------------------------------------------------
  // Links between hospitals and doctors
  // ---------------------------------------------------------------------------

  /** Every doctor a hospital lists exists and lists that hospital back. */
  ghost predicate Reciprocal(db: Db)
  {
    forall h, d :: h in db.hospitals && d in db.hospitals[h].doctors ==>
      d in db.doctors && References(db.doctors[d], h)
  }

  /** Adding a doctor to a hospital. The duplicate test looks only at the hospital's list;
      a null `hospital` field on the doctor makes the push throw (500, nothing saved). */
  function LinkReply(db: Db, user: Option<Caller>, hid: Id, did: Id): (r: Reply)
    ensures user == None ==> r == Reply(ServerError, db)
    ensures user == Some(Caller(false)) ==> r == Reply(Forbidden, db)
    ensures IsAdmin(user) && hid !in db.hospitals ==> r == Reply(NotFound, db)
    ensures IsAdmin(user) && hid in db.hospitals && did !in db.doctors ==> r == Reply(NotFound, db)
    ensures IsAdmin(user) && hid in db.hospitals && did in db.doctors && did in db.hospitals[hid].doctors ==>
      r == Reply(BadRequest, db)
    ensures IsAdmin(user) && hid in db.hospitals && did in db.doctors && did !in db.hospitals[hid].doctors
            && db.doctors[did].hospital == None ==>
      r == Reply(ServerError, db)
    ensures IsAdmin(user) && hid in db.hospitals && did in db.doctors && did !in db.hospitals[hid].doctors
            && db.doctors[did].hospital.Some? ==>
      r.status == Ok
    ensures r.status != Ok ==> r.db == db
    ensures r.status == Ok ==>
      && IsAdmin(user) && hid in db.hospitals && did in db.doctors && did !in db.hospitals[hid].doctors
      && db.doctors[did].hospital.Some?
      && r.db.hospitals == db.hospitals[hid := db.hospitals[hid].(doctors := db.hospitals[hid].doctors + [did])]
      && r.db.doctors == db.doctors[did := db.doctors[did].(hospital := Some(db.doctors[did].hospital.value + [hid]))]
      && r.db.admins == db.admins && r.db.patients == db.patients
  {
    if AdminGate(user).Some? then Reply(AdminGate(user).value, db)
    else if hid !in db.hospitals then Reply(NotFound, db)
    else if did !in db.doctors then Reply(NotFound, db)
    else
      var h, d := db.hospitals[hid], db.doctors[did];
      if did in h.doctors then Reply(BadRequest, db)
      else if d.hospital.None? then Reply(ServerError, db)
      else
        Reply(Ok, db.(hospitals := db.hospitals[hid := h.(doctors := h.doctors + [did])],
                      doctors := db.doctors[did := d.(hospital := Some(d.hospital.value + [hid]))]))
  }

  method AddDoctorToHospital(store: Store, user: Option<Caller>, hid: Id, did: Id) returns (status: Status)
    modifies store
    ensures Reply(status, store.State()) == LinkReply(old(store.State()), user, hid, did)
  {
    var refused := AdminGate(user);
    if refused.Some? {
      return refused.value;
    }
    if hid !in store.hospitals {
      return NotFound;
    }
    var hospital := store.hospitals[hid];
    if did !in store.doctors {
      return NotFound;
    }
    var doctor := store.doctors[did];
    if did in hospital.doctors {
      return BadRequest;
    }
    if doctor.hospital.None? {
      return ServerError;
    }
    doctor := doctor.(hospital := Some(doctor.hospital.value + [hid]));
    store.doctors := store.doctors[did := doctor];
    hospital := hospital.(doctors := hospital.doctors + [did]);
    store.hospitals := store.hospitals[hid := hospital];
    status := Ok;
  }

  /** After a successful link each record holds the other's id. */
  lemma LinkIsMutual(db: Db, user: Option<Caller>, hid: Id, did: Id)
    requires LinkReply(db, user, hid, did).status == Ok
    ensures var db' := LinkReply(db, user, hid, did).db;
            did in db'.hospitals[hid].doctors && References(db'.doctors[did], hid)
  {
  }

  /** Linking keeps every hospital's doctors pointing back at it. */
  lemma LinkKeepsReciprocal(db: Db, user: Option<Caller>, hid: Id, did: Id)
    requires Reciprocal(db)
    ensures Reciprocal(LinkReply(db, user, hid, did).db)
  {
    var r := LinkReply(db, user, hid, did);
    if r.status == Ok {
      forall h, d | h in r.db.hospitals && d in r.db.hospitals[h].doctors
        ensures d in r.db.doctors && References(r.db.doctors[d], h)
      {
        if h == hid && d == did {
        } else if h == hid {
          assert d in db.hospitals[h].doctors;
        } else {
          assert d in db.hospitals[h].doctors;
        }
      }
    }
  }

  /** The duplicate test is one-sided: a doctor that already lists the hospital, in a
      hospital that does not list the doctor, is linked again and lists it twice. */
  lemma LinkCanRepeatOnDoctorSide()
    ensures exists db: Db, hid: Id, did: Id ::
      && LinkReply(db, Some(Caller(true)), hid, did).status == Ok
      && LinkReply(db, Some(Caller(true)), hid, did).db.doctors[did].hospital == Some([hid, hid])
  {
    var doctor := Doctor("Ada", "ada@clinic.org", Some(["h"]), "surgery", Some([]), Some([]), "", false);
    var db := Db(map[], map["h" := Hospital("General", "Metro", [])], map["d" := doctor], map[]);
    assert "h" in db.hospitals && "d" in db.doctors && "d" !in db.hospitals["h"].doctors;
    var r := LinkReply(db, Some(Caller(true)), "h", "d");
    assert r.status == Ok;
    assert r.db.doctors["d"].hospital == Some(["h"] + ["h"]);
    assert ["h"] + ["h"] == ["h", "h"];
  }

  // ---------------------------------------------------------------------------
  // Unlinking
  // ---------------------------------------------------------------------------

  /** `removeDoctorFromHospital` as written: past the gate, its first statement reads
      `mongoose`, which this controller never imports, so the handler always ends in its
      catch with a 500 and changes nothing. */
  function RemoveDoctorFromHospitalReply(db: Db, user: Option<Caller>, hid: Id, did: Id): (r: Reply)
    ensures r.db == db
    ensures user == Some(Caller(false)) ==> r.status == Forbidden
    ensures IsAdmin(user) ==> r.status == ServerError
  {
    if AdminGate(user).Some? then Reply(AdminGate(user).value, db) else Reply(ServerError, db)
  }

  method RemoveDoctorFromHospital(store: Store, user: Option<Caller>, hid: Id, did: Id) returns (status: Status)
    modifies store
    ensures Reply(status, store.State()) == RemoveDoctorFromHospitalReply(old(store.State()), user, hid, did)
  {
    var refused := AdminGate(user);
    if refused.Some? {
      return refused.value;
    }
    // ReferenceError: `mongoose` is not defined.
    status := ServerError;
  }

  /** The handler as intended, with the import in place. The association test compares the
      doctor's whole hospital list, printed with `toString()`, against `hid`; a null list
      prints as undefined and never matches. */
  function UnlinkReply(db: Db, user: Option<Caller>, hid: Id, did: Id, validId: Id -> bool): (r: Reply)
    ensures user == None ==> r == Reply(ServerError, db)
    ensures user == Some(Caller(false)) ==> r == Reply(Forbidden, db)
    ensures IsAdmin(user) && !(validId(hid) && validId(did)) ==> r == Reply(BadRequest, db)
    ensures IsAdmin(user) && validId(hid) && validId(did) && hid !in db.hospitals ==> r == Reply(NotFound, db)
    ensures IsAdmin(user) && validId(hid) && validId(did) && hid in db.hospitals && did !in db.doctors ==>
      r == Reply(NotFound, db)
    ensures IsAdmin(user) && validId(hid) && validId(did) && hid in db.hospitals && did in db.doctors ==>
      && (r.status == Ok <==> db.doctors[did].hospital.Some? && Join(db.doctors[did].hospital.value) == hid)
      && (r.status != Ok ==> r.status == BadRequest)
    ensures r.status != Ok ==> r.db == db
    ensures r.status == Ok ==>
      && IsAdmin(user) && hid in db.hospitals && did in db.doctors
      && db.doctors[did].hospital.Some? && Join(db.doctors[did].hospital.value) == hid
      && r.db.hospitals == db.hospitals[hid := db.hospitals[hid].(doctors := Without(db.hospitals[hid].doctors, did))]
      && r.db.doctors == db.doctors[did := db.doctors[did].(hospital := None)]
      && r.db.admins == db.admins && r.db.patients == db.patients
  {
    if AdminGate(user).Some? then Reply(AdminGate(user).value, db)
    else if !validId(hid) || !validId(did) then Reply(BadRequest, db)
    else if hid !in db.hospitals then Reply(NotFound, db)
    else if did !in db.doctors then Reply(NotFound, db)
    else
      var h, d := db.hospitals[hid], db.doctors[did];
      if d.hospital.None? || Join(d.hospital.value) != hid then Reply(BadRequest, db)
      else
        Reply(Ok, db.(hospitals := db.hospitals[hid := h.(doctors := Without(h.doctors, did))],
                      doctors := db.doctors[did := d.(hospital := None)]))
  }

  method UnlinkDoctorFromHospital(store: Store, user: Option<Caller>, hid: Id, did: Id, validId: Id -> bool)
    returns (status: Status)
    modifies store
    ensures Reply(status, store.State()) == UnlinkReply(old(store.State()), user, hid, did, validId)
  {
    var refused := AdminGate(user);
    if refused.Some? {
      return refused.value;
    }
    if !validId(hid) || !validId(did) {
      return BadRequest;
    }
    if hid !in store.hospitals {
      return NotFound;
    }
    var hospital := store.hospitals[hid];
    if did !in store.doctors {
      return NotFound;
    }
    var doctor := store.doctors[did];
    if doctor.hospital.None? || Join(doctor.hospital.value) != hid {
      return BadRequest;
    }
    hospital := hospital.(doctors := Without(hospital.doctors, did));
    doctor := doctor.(hospital := None);
    store.doctors := store.doctors[did := doctor];
    store.hospitals := store.hospitals[hid := hospital];
    status := Ok;
  }

  /** Every id a doctor's hospital list holds prints as a plain id. */
  ghost predicate PlainRefs(db: Db)
  {
    forall d, k :: d in db.doctors && db.doctors[d].hospital.Some? && 0 <= k < |db.doctors[d].hospital.value| ==>
      PlainId(db.doctors[d].hospital.value[k])
  }

  /** With plain ids, unlinking succeeds only for a doctor whose hospital list is exactly
      `[hid]`: a doctor linked to two hospitals can never be unlinked. */
  lemma UnlinkNeedsSoleHospital(db: Db, user: Option<Caller>, hid: Id, did: Id, validId: Id -> bool)
    requires PlainRefs(db) && PlainId(hid)
    ensures UnlinkReply(db, user, hid, did, validId).status == Ok <==>
      && IsAdmin(user) && validId(hid) && validId(did) && hid in db.hospitals && did in db.doctors
      && db.doctors[did].hospital == Some([hid])
  {
    if did in db.doctors && db.doctors[did].hospital.Some? {
      JoinMatchesOnlySingleton(db.doctors[did].hospital.value, hid);
    }
  }

  /** After a successful unlink neither record refers to the other. */
  lemma UnlinkClearsBothSides(db: Db, user: Option<Caller>, hid: Id, did: Id, validId: Id -> bool)
    requires UnlinkReply(db, user, hid, did, validId).status == Ok
    ensures var db' := UnlinkReply(db, user, hid, did, validId).db;
            did !in db'.hospitals[hid].doctors && db'.doctors[did].hospital == None
  {
    WithoutMembership(db.hospitals[hid].doctors, did, did);
  }

  /** Unlinking keeps every hospital's doctors pointing back at it. */
  lemma UnlinkKeepsReciprocal(db: Db, user: Option<Caller>, hid: Id, did: Id, validId: Id -> bool)
    requires Reciprocal(db) && PlainRefs(db) && PlainId(hid)
    ensures Reciprocal(UnlinkReply(db, user, hid, did, validId).db)
  {
    var r := UnlinkReply(db, user, hid, did, validId);
    if r.status == Ok {
      UnlinkNeedsSoleHospital(db, user, hid, did, validId);
      forall h, d | h in r.db.hospitals && d in r.db.hospitals[h].doctors
        ensures d in r.db.doctors && References(r.db.doctors[d], h)
      {
        if h == hid {
          WithoutMembership(db.hospitals[hid].doctors, did, d);
        } else {
          assert d in db.hospitals[h].doctors;
          assert d != did;
        }
      }
    }
  }

  /** Deleting a hospital can leave another hospital listing a doctor whose field was nulled. */
  lemma DeleteCanBreakReciprocal()
    ensures exists db: Db, hid: Id ::
      Reciprocal(db) && !Reciprocal(DeleteHospitalReply(db, Some(Caller(true)), hid).db)
  {
    var doctor := Doctor("Ada", "ada@clinic.org", Some(["h1", "h2"]), "surgery", Some([]), Some([]), "", false);
    var db := Db(map[], map["h1" := Hospital("North", "Metro", ["d"]), "h2" := Hospital("South", "Metro", ["d"])],
                 map["d" := doctor], map[]);
    assert Reciprocal(db);
    var db' := DeleteHospitalReply(db, Some(Caller(true)), "h1").db;
    assert "h2" in db'.hospitals && "d" in db'.hospitals["h2"].doctors;
    assert !References(db'.doctors["d"], "h2");
  }

  // ---------------------------------------------------------------------------
  // Linking again after an unlink
  // ---------------------------------------------------------------------------

  /** The unlink leaves the doctor's `hospital` field null, so linking the same pair again
      throws on the push and answers 500. */
  lemma RelinkAfterUnlinkFails(db: Db, user: Option<Caller>, hid: Id, did: Id, validId: Id -> bool)
    requires UnlinkReply(db, user, hid, did, validId).status == Ok
    ensures var db' := UnlinkReply(db, user, hid, did, validId).db;
            LinkReply(db', user, hid, did) == Reply(ServerError, db')
  {
    UnlinkClearsBothSides(db, user, hid, did, validId);
  }

  /** Deleting a hospital nulls the whole field of every doctor that listed it, so linking
      such a doctor to any other hospital throws on the push and answers 500. */
  lemma DeleteThenLinkFails(db: Db, user: Option<Caller>, gone: Id, hid: Id, did: Id)
    requires IsAdmin(user) && gone in db.hospitals && did in db.doctors && References(db.doctors[did], gone)
    requires hid in db.hospitals && hid != gone && did !in db.hospitals[hid].doctors
    ensures var db' := DeleteHospitalReply(db, user, gone).db;
            LinkReply(db', user, hid, did) == Reply(ServerError, db')
  {
    var db' := DeleteHospitalReply(db, user, gone).db;
    assert db'.doctors[did].hospital == None;
  }

  /** With the null-safe link, the same doctor is linked after the deletion and then lists
      exactly the new hospital. */
  lemma DeleteThenNullSafeLinkSucceeds(db: Db, user: Option<Caller>, gone: Id, hid: Id, did: Id)
    requires IsAdmin(user) && gone in db.hospitals && did in db.doctors && References(db.doctors[did], gone)
    requires hid in db.hospitals && hid != gone && did !in db.hospitals[hid].doctors
    ensures var db' := DeleteHospitalReply(db, user, gone).db;
            var r := LinkNullSafeReply(db', user, hid, did);
            && r.status == Ok
            && r.db.doctors[did].hospital == Some([hid])
            && did in r.db.hospitals[hid].doctors
  {
    var db' := DeleteHospitalReply(db, user, gone).db;
    assert db'.doctors[did].hospital == None;
    assert hid in db'.hospitals && db'.hospitals[hid] == db.hospitals[hid];
    var r := LinkNullSafeReply(db', user, hid, did);
    assert r.status == Ok;
    assert r.db.doctors[did].hospital == Some([] + [hid]);
    assert [] + [hid] == [hid];
    assert r.db.hospitals[hid].doctors == db.hospitals[hid].doctors + [did];
  }

  /** Linking with a null hospital field read as the empty list, as `deletePatient` reads
      a missing patient list. */
  function LinkNullSafeReply(db: Db, user: Option<Caller>, hid: Id, did: Id): (r: Reply)
    ensures r.status != Ok ==> r.db == db
    ensures r.status == Ok <==>
      IsAdmin(user) && hid in db.hospitals && did in db.doctors && did !in db.hospitals[hid].doctors
    ensures r.status == Ok ==>
      && r.db.hospitals == db.hospitals[hid := db.hospitals[hid].(doctors := db.hospitals[hid].doctors + [did])]
      && r.db.doctors == db.doctors[did := db.doctors[did].(hospital := Some(db.doctors[did].hospital.GetOr([]) + [hid]))]
      && r.db.admins == db.admins && r.db.patients == db.patients
  {
    if AdminGate(user).Some? then Reply(AdminGate(user).value, db)
    else if hid !in db.hospitals then Reply(NotFound, db)
    else if did !in db.doctors then Reply(NotFound, db)
    else
      var h, d := db.hospitals[hid], db.doctors[did];
      if did in h.doctors then Reply(BadRequest, db)
      else
        Reply(Ok, db.(hospitals := db.hospitals[hid := h.(doctors := h.doctors + [did])],
                      doctors := db.doctors[did := d.(hospital := Some(d.hospital.GetOr([]) + [hid]))]))
  }

  /** With the null-safe link, unlinking and linking the same pair again succeeds, restores
      the doctor's record exactly and lists the doctor in the hospital again. */
  lemma RelinkAfterUnlinkRestores(db: Db, user: Option<Caller>, hid: Id, did: Id, validId: Id -> bool)
    requires PlainRefs(db) && PlainId(hid)
    requires UnlinkReply(db, user, hid, did, validId).status == Ok
    ensures var db' := UnlinkReply(db, user, hid, did, validId).db;
            var r := LinkNullSafeReply(db', user, hid, did);
            && r.status == Ok
            && r.db.doctors == db.doctors
            && did in r.db.hospitals[hid].doctors
  {
    UnlinkNeedsSoleHospital(db, user, hid, did, validId);
    UnlinkClearsBothSides(db, user, hid, did, validId);
    var d := db.doctors[did];
    var db' := UnlinkReply(db, user, hid, did, validId).db;
    var r := LinkNullSafeReply(db', user, hid, did);
    assert db'.doctors[did].hospital.GetOr([]) + [hid] == [hid];
    assert r.db.doctors == db.doctors[did := d.(hospital := Some([hid]))];
    assert d.(hospital := Some([hid])) == d;
  }
}
