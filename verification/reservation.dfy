/** `POST /api/bookings`: the seat-reservation handler. The row lock and
    BEGIN … COMMIT / ROLLBACK make the handler one indivisible step, so it is a
    single pure transition from a store and a request to a new store and an outcome. */
module Reservation {
  import opened Js
  import opened Catalog

  /** The JSON body. Every field may be absent; `seats` is a number when present. */
  datatype Request = Request(
    experienceId: Option<string>,
    timeslotId: Option<string>,
    date: Option<string>,
    time: Option<string>,
    customerName: Option<string>,
    customerEmail: Option<string>,
    seats: Option<int>)

  /** What the handler answers: a failure (status 400 with an error text) or a
      booking id (status 201). */
  datatype Outcome =
    | MissingFields
    | TimeslotNotFound
    | NotEnoughSpots
    | StoreRejected
    | Booked(bookingId: string)

  /** The HTTP status the handler sends with an outcome. */
  function Status(o: Outcome): (code: int)
    ensures code == 201 <==> o.Booked?
    ensures code != 201 ==> code == 400
  {
    if o.Booked? then 201 else 400
  }

  /** The four fields the handler checks before it opens a transaction. `date`,
      `time` and `seats` are not checked. */
  predicate HasRequiredFields(req: Request) {
    && Given(req.experienceId)
    && Given(req.timeslotId)
    && Given(req.customerName)
    && Given(req.customerEmail)
  }

  /** The generated booking id names no existing booking (the UUID generator is
      not modelled; this is what the handler relies on it for). */
  predicate FreshBookingId(db: Db, id: string) {
    forall i :: 0 <= i < |db.bookings| ==> db.bookings[i].id != id
  }

  /** The result of the statements between BEGIN and COMMIT: the written working
      copy on COMMIT, or the error that sends the handler to ROLLBACK. */
  datatype Tx = Commit(work: Db) | Rollback(error: Outcome)

  /** The range of a Postgres `integer` column; a value outside it makes the
      statement that writes it fail. */
  const IntegerMin: int := -0x8000_0000
  const IntegerMax: int := 0x7FFF_FFFF

  predicate FitsInteger(n: int) {
    IntegerMin <= n <= IntegerMax
  }

  /** The row a successful reservation appends. */
  function NewBooking(req: Request, newId: string, seats: int): Booking
    requires HasRequiredFields(req)
  {
    Booking(newId, req.experienceId.value, req.timeslotId.value, req.date, req.time,
            req.customerName.value, req.customerEmail.value, seats)
  }

  /** The transaction body: lock and read the slot, check it, UPDATE it, INSERT the
      booking. The UPDATE writes `spots_left - seats` and the INSERT writes `seats`;
      either fails when its value does not fit the integer column. */
  function Transaction(db: Db, req: Request, newId: string): (r: Tx)
    requires HasRequiredFields(req)
    ensures r.Rollback? ==> r.error in {TimeslotNotFound, NotEnoughSpots, StoreRejected}
    ensures r.Commit? ==>
      && req.timeslotId.value in db.timeslots && req.seats.Some?
      && r.work.experiences == db.experiences
      && r.work.timeslots.Keys == db.timeslots.Keys
      && |r.work.bookings| == |db.bookings| + 1
      && r.work.bookings[..|db.bookings|] == db.bookings
      && r.work.bookings[|db.bookings|].seats == req.seats.value
      && r.work.timeslots[req.timeslotId.value].spotsLeft
         == db.timeslots[req.timeslotId.value].spotsLeft - req.seats.value >= 0
  {
    var tid := req.timeslotId.value;
    if tid !in db.timeslots then Rollback(TimeslotNotFound)
    else
      var ts := db.timeslots[tid];
      match req.seats
      case None =>
        // `spots_left < undefined` is false, so the capacity check lets the request
        // through; the UPDATE then writes `spots_left - undefined`, which is NaN, and
        // the integer spots_left column refuses it.
        Rollback(StoreRejected)
      case Some(n) =>
        if ts.spotsLeft < n then Rollback(NotEnoughSpots)
        else if !FitsInteger(ts.spotsLeft - n) || !FitsInteger(n) then Rollback(StoreRejected)
        else
          var updated := db.(timeslots := db.timeslots[tid := ts.(spotsLeft := ts.spotsLeft - n)]);
          Commit(updated.(bookings := updated.bookings + [NewBooking(req, newId, n)]))
  }

  /** The request passes every check of the handler. */
  predicate Admits(db: Db, req: Request) {
    && HasRequiredFields(req)
    && req.timeslotId.value in db.timeslots
    && req.seats.Some?
    && req.seats.value <= db.timeslots[req.timeslotId.value].spotsLeft
    && FitsInteger(req.seats.value)
    && FitsInteger(db.timeslots[req.timeslotId.value].spotsLeft - req.seats.value)
  }

  /** The whole handler: validation, then the transaction, committed or rolled back. */
  function Reserve(db: Db, req: Request, newId: string): (r: (Db, Outcome))
    requires FreshBookingId(db, newId)
    ensures r.1.Booked? <==> Admits(db, req)
    ensures r.1.Booked? ==> r.1.bookingId == newId
    ensures !r.1.Booked? ==> r.0 == db
    ensures !HasRequiredFields(req) ==> r.1 == MissingFields
    ensures HasRequiredFields(req) && req.timeslotId.value !in db.timeslots ==> r.1 == TimeslotNotFound
    ensures (HasRequiredFields(req) && req.timeslotId.value in db.timeslots && req.seats.Some?
             && db.timeslots[req.timeslotId.value].spotsLeft < req.seats.value) ==> r.1 == NotEnoughSpots
    ensures (HasRequiredFields(req) && req.timeslotId.value in db.timeslots && req.seats.None?)
            ==> r.1 == StoreRejected
    ensures (HasRequiredFields(req) && req.timeslotId.value in db.timeslots && req.seats.Some?
             && req.seats.value <= db.timeslots[req.timeslotId.value].spotsLeft
             && !(FitsInteger(req.seats.value)
                  && FitsInteger(db.timeslots[req.timeslotId.value].spotsLeft - req.seats.value)))
            ==> r.1 == StoreRejected
  {
    if !HasRequiredFields(req) then (db, MissingFields)
    else
      match Transaction(db, req, newId)
      case Commit(work) => (work, Booked(newId))
      case Rollback(error) => (db, error)
  }

  /** A successful reservation takes exactly `seats` from the target slot, touches no
      other slot and no experience, and appends exactly one booking, carrying the
      request's fields under the fresh id it answers with. */
  lemma ReserveSuccessEffect(db: Db, req: Request, newId: string)
    requires FreshBookingId(db, newId)
    requires Reserve(db, req, newId).1.Booked?
    ensures var (db', _) := Reserve(db, req, newId);
      var tid := req.timeslotId.value;
      && HasRequiredFields(req) && req.seats.Some?
      && tid in db.timeslots
      && db'.experiences == db.experiences
      && db'.timeslots.Keys == db.timeslots.Keys
      && db'.timeslots[tid] == db.timeslots[tid].(spotsLeft := db.timeslots[tid].spotsLeft - req.seats.value)
      && FitsInteger(req.seats.value) && FitsInteger(db'.timeslots[tid].spotsLeft)
      && (forall t :: t in db.timeslots && t != tid ==> db'.timeslots[t] == db.timeslots[t])
      && |db'.bookings| == |db.bookings| + 1
      && db'.bookings[..|db.bookings|] == db.bookings
      && db'.bookings[|db.bookings|] == Booking(newId, req.experienceId.value, tid, req.date, req.time,
                                                req.customerName.value, req.customerEmail.value, req.seats.value)
      && (forall i :: 0 <= i < |db.bookings| ==> db.bookings[i].id != newId)
  {
  }

  /** Success never leaves the target slot below zero, whatever `seats` is: the
      capacity check demands `spots_left >= seats`. */
  lemma ReserveNeverNegative(db: Db, req: Request, newId: string)
    requires FreshBookingId(db, newId)
    requires Reserve(db, req, newId).1.Booked?
    ensures Reserve(db, req, newId).0.timeslots[req.timeslotId.value].spotsLeft >= 0
  {
  }

  /** Seats a slot still holds or has handed to its bookings. */
  function Held(db: Db, t: string): int
    requires t in db.timeslots
  {
    db.timeslots[t].spotsLeft + BookedSeats(db.bookings, t)
  }

  /** For every slot, `spots_left + Σ seats of its bookings` is the same before and
      after any call, successful or not. */
  lemma ReserveConservesSeats(db: Db, req: Request, newId: string)
    requires FreshBookingId(db, newId)
    ensures var db' := Reserve(db, req, newId).0;
      && db'.timeslots.Keys == db.timeslots.Keys
      && forall t :: t in db.timeslots ==> Held(db', t) == Held(db, t)
  {
    var (db', o) := Reserve(db, req, newId);
    if o.Booked? {
      ReserveSuccessEffect(db, req, newId);
      var b := db'.bookings[|db.bookings|];
      assert db'.bookings == db.bookings + [b];
      forall t | t in db.timeslots
        ensures Held(db', t) == Held(db, t)
      {
        BookedSeatsAppend(db.bookings, b, t);
      }
    }
  }

  /** A reservation keeps the store consistent: every slot's taken seats are its
      bookings' seats, no slot is below zero, every booking names a slot, and
      booking ids are distinct. */
  lemma ReservePreservesConsistent(db: Db, req: Request, newId: string)
    requires Consistent(db)
    requires FreshBookingId(db, newId)
    ensures Consistent(Reserve(db, req, newId).0)
  {
    var (db', o) := Reserve(db, req, newId);
    if o.Booked? {
      ReserveConservesSeats(db, req, newId);
      ReserveSuccessEffect(db, req, newId);
      var tid := req.timeslotId.value;
      forall t | t in db'.timeslots
        ensures db'.timeslots[t].totalSpots - db'.timeslots[t].spotsLeft == BookedSeats(db'.bookings, t)
      {
        assert Held(db', t) == Held(db, t);
      }
      forall i, j | 0 <= i < j < |db'.bookings|
        ensures db'.bookings[i].id != db'.bookings[j].id
      {
        if j < |db.bookings| {
          assert db'.bookings[i] == db.bookings[i] && db'.bookings[j] == db.bookings[j];
        } else {
          assert db'.bookings[i] == db.bookings[i];
        }
      }
      forall i | 0 <= i < |db'.bookings|
        ensures db'.bookings[i].timeslotId in db'.timeslots
      {
        if i < |db.bookings| {
          assert db'.bookings[i] == db.bookings[i];
        }
      }
    }
  }

  /** With no negative seat count in the request, no slot's `spots_left` goes up. */
  lemma ReserveSpotsLeftNonIncreasing(db: Db, req: Request, newId: string)
    requires FreshBookingId(db, newId)
    requires req.seats.Some? ==> req.seats.value >= 0
    ensures var db' := Reserve(db, req, newId).0;
      forall t :: t in db.timeslots ==> t in db'.timeslots && db'.timeslots[t].spotsLeft <= db.timeslots[t].spotsLeft
  {
    if Reserve(db, req, newId).1.Booked? {
      ReserveSuccessEffect(db, req, newId);
    }
  }

  /** The handler does not check `seats`: a negative count is booked and raises
      `spots_left` above `total_spots`. */
  lemma NegativeSeatsOverfill()
    ensures var db := Db(map[], map["T1" := Timeslot("1", "2025-11-01", "09:00 AM", 5, 5)], []);
      var req := Request(Some("1"), Some("T1"), Some("2025-11-01"), Some("09:00 AM"),
                         Some("Ana"), Some("ana@example.com"), Some(-3));
      var (db', o) := Reserve(db, req, "B1");
      o == Booked("B1") && db'.timeslots["T1"].spotsLeft == 8 > db'.timeslots["T1"].totalSpots
  {
  }

  /** A negative count too large for the integer column is refused by the UPDATE, and
      the rollback leaves the store as it was. */
  lemma OutOfRangeSeatsRejected()
    ensures var db := Db(map[], map["T1" := Timeslot("1", "2025-11-01", "09:00 AM", 5, 5)], []);
      var req := Request(Some("1"), Some("T1"), Some("2025-11-01"), Some("09:00 AM"),
                         Some("Ana"), Some("ana@example.com"), Some(-3_000_000_000));
      Reserve(db, req, "B1") == (db, StoreRejected)
  {
  }

  /** A slot with five free seats: three are booked, then a second request for three
      is refused and leaves two seats. */
  lemma ScenarioSellOutThenRefuse()
    ensures var db0 := Db(map[], map["T1" := Timeslot("1", "2025-11-01", "09:00 AM", 5, 5)], []);
      var req := Request(Some("1"), Some("T1"), Some("2025-11-01"), Some("09:00 AM"),
                         Some("Ana"), Some("ana@example.com"), Some(3));
      var (db1, o1) := Reserve(db0, req, "B1");
      && o1 == Booked("B1")
      && db1.timeslots["T1"].spotsLeft == 2
      && |db1.bookings| == 1 && db1.bookings[0].seats == 3
      && FreshBookingId(db1, "B2")
      && var (db2, o2) := Reserve(db1, req, "B2");
         o2 == NotEnoughSpots && db2 == db1 && db2.timeslots["T1"].spotsLeft == 2
  {
    var db0 := Db(map[], map["T1" := Timeslot("1", "2025-11-01", "09:00 AM", 5, 5)], []);
    var req := Request(Some("1"), Some("T1"), Some("2025-11-01"), Some("09:00 AM"),
                       Some("Ana"), Some("ana@example.com"), Some(3));
    var (db1, o1) := Reserve(db0, req, "B1");
    assert db1.bookings[0].id == "B1";
  }
}
