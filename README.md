# Hospital management backend: relationship bookkeeping

This project models the request handlers of a hospital-management backend. The backend keeps
four kinds of records in a document store: admins, hospitals, doctors and patients. Records
refer to each other only by id:

- a hospital lists its doctors;
- a doctor lists its hospitals, its accepted patients and its pending patient requests.

Nothing in the store keeps these lists consistent, so each handler updates both sides itself.
The model says exactly what every handler does to the store and which reply it sends. It then
proves what those updates keep and what they break.

Layout:

- `documents.dfy` (module `Documents`): the records, the store (a class with one map per
  collection), the reply statuses, the admin gate, and `Resolve`. `Resolve` turns an id list
  into the records it names, as a fetch loop or a populate does.
- `js.dfy` (module `Js`): the JavaScript operations the handlers rely on. These are
  `a || b` on request fields, `filter` with `!==`, and an array's `toString`.
- `email.dfy` (module `Email`): the e-mail regular expression of doctor signup, read as a
  language, and an equivalent check written as four plain conditions.
- `admin.dfy`, `doctor.dfy`, `patient.dfy`, `hospital.dfy`: one module per controller.
- `relationships.dfy` (module `Relationships`): the request workflow across the patient and
  doctor controllers.

How each handler is modelled:

- A handler that changes the store is a module-level method that takes the `Documents.Store`
  and declares `modifies store`.
  Its postcondition says the status it returns and the store it leaves are those of a pure
  reply function (`LinkReply`, `DeletePatientReply`, …).
- The reply function's contract states what the handler promises: each error case, and
  exactly what changes and what stays.
- A read-only handler is a function that returns `Failed(status)` or `Sent(body)`.
- The bulk update of `deleteHospital` and the fetch loop of `getDoctorHospitals` are `while`
  and `for` loops. Each is proved equal to a function that specifies it.

Conventions:

- An id is the string the ObjectId prints as.
- A doctor's three id lists are `Option<seq<Id>>`, where `None` is a null field. Calling
  `.push`, `.map` or `.includes` on a null field throws, and the handler's catch answers 500
  and saves nothing.
- A string field of a request body is `""` when it is absent or empty. JavaScript treats the
  two alike, since both are falsy. A numeric field is 0 when it is absent.
- An array field of a request body is an `Option`, because an array is truthy even when empty.
- The authenticated caller is a parameter `user: Option<Caller>`. Reading `req.user.isAdmin`
  with no user throws, which gives 500. A caller that is not an admin gets 403.
- `ObjectId.isValid` is a parameter `validId`.
- The password hash and the id the store gives a new record are parameters. The new id is
  required to be unused.

Three behaviours of the code a reader might not expect:

- A duplicate link, a mismatched unlink and a repeated request are answered with 400, not a
  conflict status.
- A patient id can be pending and accepted at one doctor at once
  (`Relationships.AcceptedPatientCanRequestAgain`).
- Deleting a hospital leaves the `hospital` field of its doctors null, and a later link of
  such a doctor to another hospital answers 500 (`AdminController.DeleteThenLinkFails`, the
  second row of "## Findings").

## Model

| member | source | states |
|---|---|---|
| Documents.AdminGatePasses | controllers/admin.js:70 | Only an admin caller passes the gate. A caller that is not an admin gets 403. A missing caller makes the property read throw, which gives 500. |
| Documents.ResolveLength | controllers/doctor.js:196-204 | Fetching an id list never yields more records than there are ids. When every id resolves, it yields exactly one record per id. |
| Documents.ResolveAppend | controllers/doctor.js:196-204 | Fetching a concatenated list is fetching each part in turn, so list order is kept. |
| Documents.ResolveMembership | controllers/hospital.js:57 | A record is in the fetched list exactly when some id of the list names it. |
| Js.WithoutCounts | controllers/doctor.js:103 | Filtering an id out of a list drops every copy of it and keeps every other id with its multiplicity. |
| Js.WithoutIdempotent | controllers/doctor.js:152 | Filtering the same id out twice gives the same list as filtering it out once. |
| Js.JoinMatchesOnlySingleton | controllers/admin.js:200 | When every id is non-empty and comma-free, a list's `toString()` equals an id exactly when the list is that id alone. |
| Email.ValidEmailMatches | controllers/doctor.js:21-22 | A string that meets the four conditions matches the e-mail pattern. |
| Email.MatchesAreValidEmail | controllers/doctor.js:21-22 | A string that matches the e-mail pattern meets the four conditions. |
| Email.ValidEmailIsPattern | controllers/doctor.js:21-22 | The pattern accepts exactly the strings with: no whitespace; exactly one "@"; a non-empty part before it; and, after it, a "." that is neither the first nor the last character. |
| AdminController.SignupReply | controllers/admin.js:16-24 | If an admin-flagged record exists, signup answers 400 and changes nothing, whatever the e-mail. Otherwise it answers 201 and adds exactly one flagged admin. |
| AdminController.Signup | controllers/admin.js:11-39 | The store method does what `SignupReply` says, and it keeps the single-admin invariant. |
| AdminController.SignupKeepsSingleAdmin | controllers/admin.js:16-24 | Signup never leaves more than one admin. |
| AdminController.SecondSignupRefused | controllers/admin.js:16-19 | After one successful signup, every later signup is refused with 400 and changes nothing. |
| AdminController.AdminExists | controllers/admin.js:223-224 | The endpoint reports true exactly when at least one admin record exists. |
| AdminController.AdminExistsMatchesGuard | controllers/admin.js:16-19 | Under the single-admin invariant, signup succeeds exactly when `adminExists` reports false. |
| AdminController.AddHospitalReply | controllers/admin.js:67-82 | A missing caller gets 500 and a caller that is not an admin gets 403, with nothing changed. An admin creates exactly one hospital with an empty doctor list. |
| AdminController.AddHospital | controllers/admin.js:67-82 | The store method does what `AddHospitalReply` says. |
| AdminController.GetAllDoctors | controllers/admin.js:85-96 | The gate answers 500 or 403. An admin gets every doctor record. |
| AdminController.EditHospitalReply | controllers/admin.js:99-119 | Past the gate: 404 with no change when the hospital is missing. Otherwise name and city are each replaced only when given truthy. The doctor list and all other hospitals are unchanged. |
| AdminController.EditHospital | controllers/admin.js:99-119 | The store method does what `EditHospitalReply` says. |
| AdminController.ClearRefs | controllers/admin.js:135 | Every doctor whose hospital list holds the deleted id has the whole field set to null. Every other doctor is unchanged, and no doctor is added or removed. |
| AdminController.ClearHospitalRefs | controllers/admin.js:135 | The bulk update, run one doctor at a time, yields `ClearRefs`. |
| AdminController.DeleteHospitalReply | controllers/admin.js:122-141 | Past the gate: a missing hospital gives 404 and no doctor is touched. Otherwise the hospital is removed, the doctors become `ClearRefs`, and admins and patients stay. |
| AdminController.DeleteHospital | controllers/admin.js:122-141 | The store method does what `DeleteHospitalReply` says. |
| AdminController.LinkReply | controllers/admin.js:144-174 | The checks run in order: the gate, then a missing hospital (404), a missing doctor (404), the doctor already in the hospital's list (400), and a null doctor field (500). When every check passes the link succeeds, and each side gains exactly the other's id at the end and nothing else changes. |
| AdminController.AddDoctorToHospital | controllers/admin.js:144-174 | The store method does what `LinkReply` says. |
| AdminController.LinkIsMutual | controllers/admin.js:164-168 | After a successful link, each record holds the other's id. |
| AdminController.LinkKeepsReciprocal | controllers/admin.js:152-168 | If every doctor a hospital lists exists and lists that hospital back, a link keeps that true. |
| AdminController.LinkCanRepeatOnDoctorSide | controllers/admin.js:159 | The duplicate test looks only at the hospital's list. A doctor that already lists the hospital is linked again and lists it twice. |
| AdminController.RemoveDoctorFromHospitalReply | controllers/admin.js:177-218 | As written, past the gate the handler always answers 500 and changes nothing. |
| AdminController.RemoveDoctorFromHospital | controllers/admin.js:177-218 | The store method does what `RemoveDoctorFromHospitalReply` says. |
| AdminController.UnlinkReply | controllers/admin.js:180-212 | The intended handler runs its checks in order: the gate, then malformed ids (400), a missing hospital (404), a missing doctor (404). With both records found, it succeeds exactly when the doctor's list is non-null and its `toString()` is the hospital id, and answers 400 otherwise. On success every copy of the doctor leaves the hospital's list, and the doctor's hospital field becomes null. |
| AdminController.UnlinkDoctorFromHospital | controllers/admin.js:180-212 | The store method does what `UnlinkReply` says. |
| AdminController.UnlinkNeedsSoleHospital | controllers/admin.js:200 | With plain ids, an unlink succeeds exactly when the doctor's hospital list is exactly the one hospital. A doctor linked to two hospitals cannot be unlinked. |
| AdminController.UnlinkClearsBothSides | controllers/admin.js:205-208 | After a successful unlink, neither record refers to the other. |
| AdminController.UnlinkKeepsReciprocal | controllers/admin.js:199-212 | Unlinking keeps every listed doctor pointing back at its hospital. |
| AdminController.DeleteCanBreakReciprocal | controllers/admin.js:135 | Nulling the whole field can leave another hospital listing a doctor that no longer lists it. |
| AdminController.RelinkAfterUnlinkFails | controllers/admin.js:164 | After a successful unlink by the intended handler, linking the same pair answers 500 and changes nothing. |
| AdminController.DeleteThenLinkFails | controllers/admin.js:135-164 | After a hospital is deleted, linking one of its doctors to another hospital that does not list it answers 500 and changes nothing. |
| AdminController.DeleteThenNullSafeLinkSucceeds | controllers/admin.js:135-168 | With the null-safe link, the same link succeeds after the deletion: the doctor lists exactly the new hospital and the hospital lists the doctor. |
| AdminController.LinkNullSafeReply | controllers/admin.js:152-168 | A link that reads a null hospital field as empty succeeds exactly when the caller is an admin, both records exist and the doctor is not yet listed. Each side gains the other's id. |
| AdminController.RelinkAfterUnlinkRestores | controllers/admin.js:164-212 | With the null-safe link, an unlink followed by a link succeeds. It restores the doctor's record exactly and lists the doctor in the hospital again. |
| DoctorController.DoctorSignupReply | controllers/doctor.js:16-49 | The checks run in order, each refusing with nothing created: a falsy field (400), an e-mail the pattern rejects (400), a malformed hospital id (400), a missing hospital (404). Signup succeeds exactly when all pass. The new doctor lists just that hospital, with empty patient and pending lists, and the hospital's own list is not updated. |
| DoctorController.Signup | controllers/doctor.js:11-58 | The store method does what `DoctorSignupReply` says. |
| DoctorController.Accepted | controllers/doctor.js:92-99 | On accept, an absent patient is appended at the end of the accepted list and a present one leaves the list unchanged, so no new duplicate appears. Every copy leaves the pending list, and every other pending entry keeps its multiplicity. |
| DoctorController.Declined | controllers/doctor.js:101-105 | On decline, every copy of the patient leaves the pending list, every other pending entry keeps its multiplicity, and the accepted list is unchanged. |
| DoctorController.ManagePatientRequestReply | controllers/doctor.js:79-112 | A missing doctor gives 404. A patient that is not pending gives 400 before the action is looked at. An unknown action gives 400. A null list gives 500. Accept (with a non-null accepted list) and decline of a pending patient succeed, and change the doctor as `Accepted` and `Declined` say. |
| DoctorController.ManagePatientRequest | controllers/doctor.js:79-112 | The store method does what `ManagePatientRequestReply` says. |
| DoctorController.ResolvingKeepsApart | controllers/doctor.js:92-105 | Accepting or declining never leaves a patient both pending and accepted. |
| DoctorController.DeletePatientReply | controllers/doctor.js:135-159 | A malformed doctor id gives 400 and a missing doctor gives 404. Otherwise the patient is filtered out of the accepted list, a null list counting as empty. The pending list, the patient's record and everything else are unchanged. |
| DoctorController.DeletePatient | controllers/doctor.js:135-159 | The store method does what `DeletePatientReply` says. |
| DoctorController.DeletePatientRemovesAll | controllers/doctor.js:152 | After removal, the patient has no copy left and every other patient keeps its multiplicity. |
| DoctorController.DeletePatientIdempotent | controllers/doctor.js:140-153 | Removing a patient twice is the same as removing it once: same reply, same store. |
| DoctorController.EditPatientDetailsReply | controllers/doctor.js:115-132 | A missing patient gives 404. Otherwise each of diseases, treatment and medicine is replaced whenever given, even as an empty array. All other fields and records stay. |
| DoctorController.EditPatientDetails | controllers/doctor.js:115-132 | The store method does what `EditPatientDetailsReply` says. |
| DoctorController.EditDoctorDetailsReply | controllers/doctor.js:162-179 | A missing doctor gives 404. Otherwise name and specialty are replaced only when given truthy. A given hospital list replaces the whole field, and no hospital record is updated. |
| DoctorController.EditDoctorDetails | controllers/doctor.js:162-179 | The store method does what `EditDoctorDetailsReply` says. |
| DoctorController.Summaries | controllers/doctor.js:197-202 | The projection keeps one (name, city) pair per hospital, in order. |
| DoctorController.GetDoctorHospitals | controllers/doctor.js:181-216 | A missing doctor gives 404. A null hospital field gives 500. Otherwise the answer is 200 with the (name, city) of each listed hospital that resolves, in list order and skipping dangling ids, so it is never longer than the list. The handler's final 404 is unreachable. |
| PatientController.RequestDoctorReply | controllers/patient.js:69-94 | A missing doctor gives 404 with no change, and a missing pending list counts as empty. An already-pending patient gives 400 with no change. Otherwise the pending list gains exactly the patient at its end, and the accepted list and all other records stay. |
| PatientController.RequestDoctor | controllers/patient.js:69-94 | The store method does what `RequestDoctorReply` says. |
| PatientController.EditPatientDetailsReply | controllers/patient.js:49-66 | A missing patient gives 404. Otherwise name, age and address are each replaced only when truthy, so an empty name or an age of 0 keeps the old value. All other fields stay. |
| PatientController.EditPatientDetails | controllers/patient.js:49-66 | The store method does what `EditPatientDetailsReply` says. |
| HospitalController.GetHospitalById | controllers/hospital.js:7-34 | A missing or non-admin caller gets 403 before the id is examined. Then a malformed id gives 400 and an unknown one 404. Otherwise the answer is that hospital's record. |
| HospitalController.GetAllHospitals | controllers/hospital.js:37-44 | Every hospital, for any caller: there is no admin check. |
| HospitalController.GetDoctorsInHospital | controllers/hospital.js:48-64 | The gate answers 500 or 403, and an unknown hospital gives 404. Otherwise the answer is the populated doctor list, `Resolve` of the hospital's ids: one record per listed id that names a doctor, in list order, never longer than the list. |
| HospitalController.GetHospitalsByCity | controllers/hospital.js:67-82 | The gate answers 500 or 403. An admin gets the hospitals when some hospital is in the city, and 404 exactly when none is. The result is exactly the hospitals whose city equals the parameter as a string. |
| HospitalController.ByIdAgreesWithListing | controllers/hospital.js:17-29 | For an admin and a well-formed id, the lookup finds a hospital exactly when the full listing holds it, and returns the same record. |
| HospitalController.CityResultsAreListed | controllers/hospital.js:75 | Every hospital the city search returns is in the full listing, with the same record. |
| Relationships.RequestThenAccept | controllers/patient.js:81-89 | A request followed by an accept leaves the patient accepted (appended unless already there) and not pending. The pending list comes back exactly as it was, and nothing else changes. |
| Relationships.RequestThenDecline | controllers/doctor.js:101-105 | A request followed by a decline gives back the doctor's lists as they were, with a null pending list becoming empty. |
| Relationships.RequestKeepsApartIffNotAccepted | controllers/patient.js:81-86 | A request keeps pending and accepted patients apart exactly when the requesting patient is not already accepted. |
| Relationships.AcceptedPatientCanRequestAgain | controllers/patient.js:81-86 | An accepted patient can send a new request and become both accepted and pending. |

## Left out

- Password hashing and comparison, token signing and verification, and the three login
  handlers are left out. These are foreign primitives; a hash enters the model only as a parameter.
- The authorization middleware is left out. The caller record it attaches is an input.
- Patient signup is left out. It hashes the password and saves the record, and the schema
  validators that would refuse it are not modelled.
- Express routing is left out. The patient request route declares `:doctorId`
  (routes/patient.js:8), but the handler reads the doctor id from the body; the model takes
  the body's id.
- `ObjectId.isValid` is a parameter. A lookup with an id the store cannot cast raises an
  error, which gives 500; the model treats it as a plain miss, which gives 404.
- Schema options and validators are left out: `required`, `enum`, `unique`, `trim`,
  `lowercase`, `select: false` and timestamps. A value the store would refuse or rewrite
  is stored as given.
- The store casting a non-array body value into an array is left out. The lists a caller
  supplies are modelled as lists.
- The order of `find` results is left out. Collections are maps, so the model returns them
  as maps, not as ordered arrays.
- Each handler is one atomic step. The model does not capture interleaving of concurrent
  requests, or a failure between the two saves of a link or unlink.
- The generic catch-all 500s for store failures, and logging, are left out.
- The age field is an integer. A non-numeric or fractional age and NaN are not modelled.
- The response bodies (messages, the token, the returned record) are not modelled. The
  read handlers return the data they send.
- `Store` methods copy a record out of a map, change it and store it back. Two handles on
  one record, aliasing in short, do not arise in the model.

## Findings

| source | as written | input that shows it | evidently intended | confidence | as-written member | corrected member |
|---|---|---|---|---|---|---|
| controllers/admin.js:187 | `mongoose` is used but never imported in this controller (lines 1-5), so every call by an admin throws and answers 500 | any admin request, e.g. an existing, linked hospital and doctor | the id checks, lookups and unlink of lines 187-212 run | not executed | AdminController.RemoveDoctorFromHospitalReply | AdminController.UnlinkReply |
| controllers/admin.js:164 | hospital deletion (line 135) sets the whole `hospital` field of each of its doctors to null, and the link handler then calls `push` on it, so linking such a doctor to another hospital answers 500 | a doctor listing only `h1`; `h1` is deleted; the doctor is then linked to `h2` | a null field read as an empty list, so the link succeeds and the doctor lists `h2` | not executed | AdminController.DeleteThenLinkFails | AdminController.LinkNullSafeReply |
