/** The hospital controller: read-only queries over the hospitals. None of them changes
    the store, so each is a function of it. */
module HospitalController {
  import opened Documents

  /** One hospital by id. This handler alone tests for a missing user, so a request without
      one gets 403 rather than an exception; the id format is checked only after the caller. */
  function GetHospitalById(db: Db, user: Option<Caller>, hid: Id, validId: Id -> bool): (r: Response<Hospital>)
    ensures !IsAdmin(user) ==> r == Failed(Forbidden)
    ensures IsAdmin(user) && !validId(hid) ==> r == Failed(BadRequest)
    ensures IsAdmin(user) && validId(hid) && hid !in db.hospitals ==> r == Failed(NotFound)
    ensures r.Sent? <==> IsAdmin(user) && validId(hid) && hid in db.hospitals
    ensures r.Sent? ==> r.body == db.hospitals[hid]
  {
    match user
    case None => Failed(Forbidden)
    case Some(c) =>
      if !c.isAdmin then Failed(Forbidden)
      else if !validId(hid) then Failed(BadRequest)
      else if hid !in db.hospitals then Failed(NotFound)
      else Sent(db.hospitals[hid])
  }

  /** Every hospital, to any caller: this route has no admin check. */
  function GetAllHospitals(db: Db): (r: Response<map<Id, Hospital>>)
    ensures r.Sent?
    ensures forall h :: h in db.hospitals <==> h in r.body
    ensures forall h :: h in r.body ==> r.body[h] == db.hospitals[h]
  {
    Sent(db.hospitals)
  }

  /** The doctors of a hospital, populated: each listed id that names a doctor becomes that
      doctor's record, in list order; ids that name no doctor are dropped. */
  function GetDoctorsInHospital(db: Db, user: Option<Caller>, hid: Id): (r: Response<seq<Doctor>>)
    ensures user == None ==> r == Failed(ServerError)
    ensures user == Some(Caller(false)) ==> r == Failed(Forbidden)
    ensures IsAdmin(user) && hid !in db.hospitals ==> r == Failed(NotFound)
    ensures r.Sent? <==> IsAdmin(user) && hid in db.hospitals
    ensures r.Sent? ==> r.body == Resolve(db.hospitals[hid].doctors, db.doctors)
    ensures r.Sent? ==> |r.body| <= |db.hospitals[hid].doctors|
    ensures r.Sent? ==> forall d :: d in r.body <==>
      exists k :: 0 <= k < |db.hospitals[hid].doctors| && db.hospitals[hid].doctors[k] in db.doctors
                  && db.doctors[db.hospitals[hid].doctors[k]] == d
  {
    if AdminGate(user).Some? then Failed(AdminGate(user).value)
    else if hid !in db.hospitals then Failed(NotFound)
    else
      var ids := db.hospitals[hid].doctors;
      ResolveLength(ids, db.doctors);
      forall d ensures d in Resolve(ids, db.doctors) <==>
        exists k :: 0 <= k < |ids| && ids[k] in db.doctors && db.doctors[ids[k]] == d
      {
        ResolveMembership(ids, db.doctors, d);
      }
      Sent(Resolve(ids, db.doctors))
  }

  /** The hospitals of one city, by exact string equality; an empty result answers 404. */
  function GetHospitalsByCity(db: Db, user: Option<Caller>, city: string): (r: Response<map<Id, Hospital>>)
    ensures user == None ==> r == Failed(ServerError)
    ensures user == Some(Caller(false)) ==> r == Failed(Forbidden)
    ensures IsAdmin(user) ==>
      (r == Failed(NotFound) <==> forall h :: h in db.hospitals ==> db.hospitals[h].city != city)
    ensures IsAdmin(user) && (exists h :: h in db.hospitals && db.hospitals[h].city == city) ==> r.Sent?
    ensures r.Sent? ==> forall h :: h in r.body <==> h in db.hospitals && db.hospitals[h].city == city
    ensures r.Sent? ==> forall h :: h in r.body ==> r.body[h] == db.hospitals[h]
  {
    if AdminGate(user).Some? then Failed(AdminGate(user).value)
    else
      var found := map h | h in db.hospitals && db.hospitals[h].city == city :: db.hospitals[h];
      assert forall h :: h in db.hospitals && db.hospitals[h].city == city ==> h in found;
      if found == map[] then Failed(NotFound) else Sent(found)
  }

  /** The single lookup and the full listing agree: an admin with a well-formed id gets a
      hospital exactly when the listing holds it, and the same record. */
  lemma ByIdAgreesWithListing(db: Db, hid: Id, validId: Id -> bool)
    requires validId(hid)
    ensures var one := GetHospitalById(db, Some(Caller(true)), hid, validId);
            var all := GetAllHospitals(db).body;
            (one.Sent? <==> hid in all) && (one.Sent? ==> one.body == all[hid])
  {
  }

  /** The city search returns a part of the full listing. */
  lemma CityResultsAreListed(db: Db, user: Option<Caller>, city: string)
    requires GetHospitalsByCity(db, user, city).Sent?
    ensures var found := GetHospitalsByCity(db, user, city).body;
            var all := GetAllHospitals(db).body;
            forall h :: h in found ==> h in all && found[h] == all[h]
  {
  }
}
