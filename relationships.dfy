/** The doctor–patient request workflow across the two controllers: a patient asks, the
    doctor accepts or declines. */
module Relationships {
  import opened Documents
  import DoctorController
  import PatientController
  import Js

  /** A request that is sent and then accepted leaves the patient accepted (appended at the
      end unless it was there already) and gives back the pending list as it was; every other
      patient keeps its place on both lists. */
  lemma RequestThenAccept(db: Db, pid: Id, did: Id)
    requires did in db.doctors && db.doctors[did].patients.Some?
    requires pid !in db.doctors[did].pendingRequests.GetOr([])
    ensures var sent := PatientController.RequestDoctorReply(db, pid, did);
            var done := DoctorController.ManagePatientRequestReply(sent.db, did, pid, "accept");
            && sent.status == Ok && done.status == Ok
            && did in done.db.doctors
            && done.db.doctors[did].patients.Some? && done.db.doctors[did].pendingRequests.Some?
            && pid in done.db.doctors[did].patients.value
            && pid !in done.db.doctors[did].pendingRequests.value
            && done.db.doctors[did].patients.value ==
               (if pid in db.doctors[did].patients.value then db.doctors[did].patients.value
                else db.doctors[did].patients.value + [pid])
            && done.db.doctors[did].pendingRequests == Some(db.doctors[did].pendingRequests.GetOr([]))
            && done.db == db.(doctors := db.doctors[did := done.db.doctors[did]])
  {
    var pending := db.doctors[did].pendingRequests.GetOr([]);
    var sent := PatientController.RequestDoctorReply(db, pid, did);
    var d := sent.db.doctors[did];
    assert d.pendingRequests == Some(pending + [pid]);
    assert pid in d.pendingRequests.value;
    var done := DoctorController.ManagePatientRequestReply(sent.db, did, pid, "accept");
    assert done.db.doctors[did] == DoctorController.Accepted(d, pid);
    WithoutAppend(pending, pid);
  }

  /** A request that is sent and then declined leaves both of the doctor's lists as they were,
      a null pending list becoming empty. */
  lemma RequestThenDecline(db: Db, pid: Id, did: Id)
    requires did in db.doctors
    requires pid !in db.doctors[did].pendingRequests.GetOr([])
    ensures var sent := PatientController.RequestDoctorReply(db, pid, did);
            var done := DoctorController.ManagePatientRequestReply(sent.db, did, pid, "decline");
            && sent.status == Ok && done.status == Ok
            && did in done.db.doctors
            && done.db.doctors[did].patients == db.doctors[did].patients
            && done.db.doctors[did].pendingRequests == Some(db.doctors[did].pendingRequests.GetOr([]))
            && done.db == db.(doctors := db.doctors[did := done.db.doctors[did]])
  {
    var pending := db.doctors[did].pendingRequests.GetOr([]);
    var sent := PatientController.RequestDoctorReply(db, pid, did);
    var d := sent.db.doctors[did];
    assert d.pendingRequests == Some(pending + [pid]);
    var done := DoctorController.ManagePatientRequestReply(sent.db, did, pid, "decline");
    assert done.db.doctors[did] == DoctorController.Declined(d, pid);
    WithoutAppend(pending, pid);
  }

  /** Filtering out an id appended to a list that lacked it gives back the list. */
  lemma {:induction false} WithoutAppend(s: seq<Id>, x: Id)
    requires x !in s
    ensures Js.Without(s + [x], x) == s
  {
    if s == [] {
      assert Js.Without([x], x) == [] + Js.Without([x][1..], x);
    } else {
      assert (s + [x])[1..] == s[1..] + [x];
      WithoutAppend(s[1..], x);
      assert s == [s[0]] + s[1..];
    }
  }

  /** A request keeps pending and accepted patients apart exactly when the requesting patient
      is not accepted already: the request handler never looks at the accepted list. */
  lemma RequestKeepsApartIffNotAccepted(db: Db, pid: Id, did: Id)
    requires did in db.doctors && db.doctors[did].patients.Some?
    requires DoctorController.PendingApart(db.doctors[did])
    requires PatientController.RequestDoctorReply(db, pid, did).status == Ok
    ensures var r := PatientController.RequestDoctorReply(db, pid, did);
            did in r.db.doctors &&
            (DoctorController.PendingApart(r.db.doctors[did]) <==> pid !in db.doctors[did].patients.value)
  {
    var r := PatientController.RequestDoctorReply(db, pid, did);
    var d := db.doctors[did];
    var after := r.db.doctors[did];
    var pending := d.pendingRequests.GetOr([]);
    assert after.pendingRequests.value == pending + [pid];
    assert pid in after.pendingRequests.value;
    if pid !in d.patients.value {
      forall q | q in after.pendingRequests.value
        ensures q !in after.patients.value
      {
        if q != pid {
          assert q in pending;
        }
      }
    }
  }

  /** A concrete case: a doctor that has accepted "p" takes a second request from "p", after
      which "p" is both accepted and pending. */
  lemma AcceptedPatientCanRequestAgain()
    ensures var d := Doctor("n", "e", Some([]), "s", Some(["p"]), Some([]), "h", false);
            var db := Db(map[], map[], map["d" := d], map[]);
            var r := PatientController.RequestDoctorReply(db, "p", "d");
            && DoctorController.PendingApart(d)
            && r.status == Ok
            && !DoctorController.PendingApart(r.db.doctors["d"])
  {
    var d := Doctor("n", "e", Some([]), "s", Some(["p"]), Some([]), "h", false);
    var db := Db(map[], map[], map["d" := d], map[]);
    var r := PatientController.RequestDoctorReply(db, "p", "d");
    assert r.db.doctors["d"].pendingRequests.value == [] + ["p"];
    assert "p" in r.db.doctors["d"].pendingRequests.value;
    assert "p" in r.db.doctors["d"].patients.value;
  }
}
