/** The records of the document store (the Admin, Hospital, Doctor and Patient models),
    the store itself, and the replies a handler gives. Cross-references between records
    are bare ids; nothing in the store keeps them consistent. */
module Documents {

  /** An ObjectId, as the string it prints as. */
  type Id = string

  /** A field that may be null, or a lookup that may find nothing. */
  datatype Option<T> = None | Some(value: T)
  {
    function GetOr(default: T): T
    {
      match this
      case Some(v) => v
      case None => default
    }
  }

  datatype Gender = Male | Female | Other

  /** `password` holds the hash the credential primitive produced; it is never read here. */
  datatype Admin = Admin(name: string, email: string, password: string, isAdmin: bool)

  datatype Hospital = Hospital(name: string, city: string, doctors: seq<Id>)

  /** The three id lists may be null: the handlers set `hospital` to null, and guard
      `patients` and `pendingRequests` against a missing value. */
  datatype Doctor = Doctor(
    name: string,
    email: string,
    hospital: Option<seq<Id>>,
    specialty: string,
    patients: Option<seq<Id>>,
    pendingRequests: Option<seq<Id>>,
    password: string,
    isAdmin: bool)

  datatype Patient = Patient(
    name: string,
    email: string,
    age: int,
    gender: Gender,
    diseases: seq<string>,
    treatment: seq<string>,
    medicine: seq<string>,
    address: string,
    password: string,
    isAdmin: bool)

  /** The record the authorization middleware attaches to a request; handlers read only `isAdmin`. */
  datatype Caller = Caller(isAdmin: bool)

  datatype Status = Ok | Created | BadRequest | Forbidden | NotFound | ServerError
  {
    /** The HTTP status code sent. */
    function Code(): int
    {
      match this
      case Ok => 200
      case Created => 201
      case BadRequest => 400
      case Forbidden => 403
      case NotFound => 404
      case ServerError => 500
    }
  }

  /** The `if (!req.user.isAdmin)` test at the top of the admin-only handlers. None: the
      handler goes on. A missing user makes the property read throw, which the handler's
      catch turns into a 500; a caller that is not an admin gets 403. */
  function AdminGate(user: Option<Caller>): Option<Status>
  {
    match user
    case None => Some(ServerError)
    case Some(c) => if c.isAdmin then None else Some(Forbidden)
  }

  predicate IsAdmin(user: Option<Caller>)
  {
    user == Some(Caller(true))
  }

  /** The gate lets exactly the admin callers through. */
  lemma AdminGatePasses(user: Option<Caller>)
    ensures AdminGate(user).None? <==> IsAdmin(user)
    ensures user == Some(Caller(false)) ==> AdminGate(user) == Some(Forbidden)
    ensures user == None ==> AdminGate(user) == Some(ServerError)
  {
  }

  /** The contents of the store: one collection per model. */
  datatype Db = Db(
    admins: map<Id, Admin>,
    hospitals: map<Id, Hospital>,
    doctors: map<Id, Doctor>,
    patients: map<Id, Patient>)

  /** What a state-changing handler does: the status it sends and the store it leaves. */
  datatype Reply = Reply(status: Status, db: Db)

  /** What a read-only handler sends: an error status, or a 200 with a body. */
  datatype Response<T> = Failed(status: Status) | Sent(body: T)

  /** The document store. Handlers load records from these collections, change them and save them back. */
  class Store {
    var admins: map<Id, Admin>
    var hospitals: map<Id, Hospital>
    var doctors: map<Id, Doctor>
    var patients: map<Id, Patient>

    function State(): Db
      reads this
    {
      Db(admins, hospitals, doctors, patients)
    }

    constructor ()
      ensures State() == Db(map[], map[], map[], map[])
    {
      admins, hospitals, doctors, patients := map[], map[], map[], map[];
    }
  }

  /** The records the ids name, in list order, skipping ids that name no record: what a
      reference list gives when each id is fetched (or the list is populated). */
  function Resolve<T>(ids: seq<Id>, m: map<Id, T>): seq<T>
  {
    if ids == [] then []
    else
      var last := ids[|ids| - 1];
      Resolve(ids[..|ids| - 1], m) + (if last in m then [m[last]] else [])
  }

  /** Resolving never yields more records than there are ids, and yields one per id when all resolve. */
  lemma {:induction false} ResolveLength<T>(ids: seq<Id>, m: map<Id, T>)
    ensures |Resolve(ids, m)| <= |ids|
    ensures (forall k :: 0 <= k < |ids| ==> ids[k] in m) ==> |Resolve(ids, m)| == |ids|
  {
    if ids != [] {
      ResolveLength(ids[..|ids| - 1], m);
    }
  }

  /** Resolution works list segment by list segment: the order of the ids is kept. */
  lemma {:induction false} ResolveAppend<T>(a: seq<Id>, b: seq<Id>, m: map<Id, T>)
    ensures Resolve(a + b, m) == Resolve(a, m) + Resolve(b, m)
  {
    if b != [] {
      var b' := b[..|b| - 1];
      assert (a + b)[..|a + b| - 1] == a + b';
      ResolveAppend(a, b', m);
    } else {
      assert a + b == a;
    }
  }

  /** A record is in the result exactly when some id of the list names it. */
  lemma {:induction false} ResolveMembership<T>(ids: seq<Id>, m: map<Id, T>, v: T)
    ensures v in Resolve(ids, m) <==> exists k :: 0 <= k < |ids| && ids[k] in m && m[ids[k]] == v
  {
    if ids != [] {
      var init := ids[..|ids| - 1];
      ResolveMembership(init, m, v);
      assert forall k :: 0 <= k < |init| ==> init[k] == ids[k];
    }
  }
}
