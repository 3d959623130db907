/** The life of the store: any sequence of seeding runs and reservation calls. The
    relationship invariant holds in every state reachable from the empty store. */
module Lifecycle {
  import opened Js
  import opened Catalog
  import Reservation
  import Seed

  datatype Step =
    | SeedRun(experiences: seq<Experience>, dates: seq<string>)
    | ReserveCall(req: Reservation.Request, newId: string)

  /** Every reservation along the way is given a booking id not yet in use. */
  predicate Admissible(db: Db, steps: seq<Step>)
    decreases |steps|
  {
    || steps == []
    || match steps[0]
       case SeedRun(es, ds) => Admissible(Seed.SeedDb(db, es, ds), steps[1..])
       case ReserveCall(req, id) =>
         && Reservation.FreshBookingId(db, id)
         && Admissible(Reservation.Reserve(db, req, id).0, steps[1..])
  }

  function Run(db: Db, steps: seq<Step>): Db
    requires Admissible(db, steps)
    decreases |steps|
  {
    if steps == [] then db
    else
      match steps[0]
      case SeedRun(es, ds) => Run(Seed.SeedDb(db, es, ds), steps[1..])
      case ReserveCall(req, id) => Run(Reservation.Reserve(db, req, id).0, steps[1..])
  }

  /** Every step keeps the relationship invariant. */
  lemma {:induction false} RunPreservesConsistent(db: Db, steps: seq<Step>)
    requires Consistent(db)
    requires Admissible(db, steps)
    ensures Consistent(Run(db, steps))
    decreases |steps|
  {
    if steps != [] {
      match steps[0]
      case SeedRun(es, ds) =>
        Seed.SeedPreservesConsistent(db, es, ds);
        RunPreservesConsistent(Seed.SeedDb(db, es, ds), steps[1..]);
      case ReserveCall(req, id) =>
        Reservation.ReservePreservesConsistent(db, req, id);
        RunPreservesConsistent(Reservation.Reserve(db, req, id).0, steps[1..]);
    }
  }

  /** In every reachable store, each slot's taken seats are its bookings' seats, and
      its bookings never hold more seats than the slot's capacity. */
  lemma ReachableNoOversell(steps: seq<Step>)
    requires Admissible(EmptyDb, steps)
    ensures var db := Run(EmptyDb, steps);
      && Consistent(db)
      && forall t :: t in db.timeslots ==>
           && db.timeslots[t].totalSpots - db.timeslots[t].spotsLeft == BookedSeats(db.bookings, t)
           && BookedSeats(db.bookings, t) <= db.timeslots[t].totalSpots
  {
    RunPreservesConsistent(EmptyDb, steps);
  }

  /** No reservation step asks for a negative number of seats. */
  predicate NoNegativeSeats(steps: seq<Step>) {
    forall i :: 0 <= i < |steps| && steps[i].ReserveCall? && steps[i].req.seats.Some?
      ==> steps[i].req.seats.value >= 0
  }

  /** No booking in the ledger carries a negative seat count. */
  predicate LedgerNonNegative(bs: seq<Booking>) {
    forall i :: 0 <= i < |bs| ==> bs[i].seats >= 0
  }

  /** With no negative seat request, `spots_left` of a slot never goes up, and no
      booking carries a negative seat count. */
  lemma {:induction false} RunSpotsLeftNonIncreasing(db: Db, steps: seq<Step>)
    requires Admissible(db, steps)
    requires NoNegativeSeats(steps)
    requires LedgerNonNegative(db.bookings)
    ensures var db' := Run(db, steps);
      && (forall t :: t in db.timeslots ==> t in db'.timeslots && db'.timeslots[t].spotsLeft <= db.timeslots[t].spotsLeft)
      && LedgerNonNegative(db'.bookings)
    decreases |steps|
  {
    if steps != [] {
      assert NoNegativeSeats(steps[1..]) by {
        forall i | 0 <= i < |steps[1..]| && steps[1..][i].ReserveCall? && steps[1..][i].req.seats.Some?
          ensures steps[1..][i].req.seats.value >= 0
        {
          assert steps[1..][i] == steps[i + 1];
        }
      }
      match steps[0]
      case SeedRun(es, ds) =>
        Seed.SeedKeepsExisting(db, es, ds);
        RunSpotsLeftNonIncreasing(Seed.SeedDb(db, es, ds), steps[1..]);
      case ReserveCall(req, id) =>
        assert steps[0] == ReserveCall(req, id);
        assert req.seats.Some? ==> req.seats.value >= 0;
        var db1 := Reservation.Reserve(db, req, id).0;
        Reservation.ReserveSpotsLeftNonIncreasing(db, req, id);
        if Reservation.Reserve(db, req, id).1.Booked? {
          Reservation.ReserveSuccessEffect(db, req, id);
          forall i | 0 <= i < |db1.bookings|
            ensures db1.bookings[i].seats >= 0
          {
            if i < |db.bookings| {
              assert db1.bookings[i] == db.bookings[i];
            }
          }
        }
        assert LedgerNonNegative(db1.bookings);
        RunSpotsLeftNonIncreasing(db1, steps[1..]);
        assert Run(db, steps) == Run(db1, steps[1..]);
    }
  }

  /** With no negative seat request, a reachable slot never has more seats left than
      its capacity. */
  lemma ReachableWithinCapacity(steps: seq<Step>)
    requires Admissible(EmptyDb, steps)
    requires NoNegativeSeats(steps)
    ensures var db := Run(EmptyDb, steps);
      forall t :: t in db.timeslots ==> 0 <= db.timeslots[t].spotsLeft <= db.timeslots[t].totalSpots
  {
    var db := Run(EmptyDb, steps);
    RunPreservesConsistent(EmptyDb, steps);
    RunSpotsLeftNonIncreasing(EmptyDb, steps);
    assert LedgerNonNegative(db.bookings);
    forall t | t in db.timeslots
      ensures db.timeslots[t].spotsLeft <= db.timeslots[t].totalSpots
    {
      BookedSeatsNonNegative(db.bookings, t);
    }
  }

  /** Bookings are append-only: every step keeps the earlier ledger as a prefix. */
  lemma {:induction false} RunAppendOnly(db: Db, steps: seq<Step>)
    requires Admissible(db, steps)
    ensures |db.bookings| <= |Run(db, steps).bookings|
    ensures Run(db, steps).bookings[..|db.bookings|] == db.bookings
    decreases |steps|
  {
    if steps != [] {
      match steps[0]
      case SeedRun(es, ds) =>
        RunAppendOnly(Seed.SeedDb(db, es, ds), steps[1..]);
      case ReserveCall(req, id) =>
        var db1 := Reservation.Reserve(db, req, id).0;
        if Reservation.Reserve(db, req, id).1.Booked? {
          Reservation.ReserveSuccessEffect(db, req, id);
        }
        RunAppendOnly(db1, steps[1..]);
        assert Run(db, steps).bookings[..|db.bookings|] == Run(db, steps).bookings[..|db1.bookings|][..|db.bookings|];
    }
  }

  /** Re-running the seeding script after a reservation on a seeded store leaves the
      reservation's effect in place. */
  lemma ReseedAfterReserve(db: Db, es: seq<Experience>, ds: seq<string>, req: Reservation.Request, id: string)
    requires Reservation.FreshBookingId(Seed.SeedDb(db, es, ds), id)
    ensures var seeded := Seed.SeedDb(db, es, ds);
      var booked := Reservation.Reserve(seeded, req, id).0;
      Seed.SeedDb(booked, es, ds) == booked
  {
    var seeded := Seed.SeedDb(db, es, ds);
    var booked := Reservation.Reserve(seeded, req, id).0;
    Seed.SeedIdempotent(db, es, ds);
    if Reservation.Reserve(seeded, req, id).1.Booked? {
      Reservation.ReserveSuccessEffect(seeded, req, id);
      InsertAllFirstWins(seeded.experiences, Seed.ExperiencePlan(es));
      InsertAllFirstWins(seeded.timeslots, Seed.TimeslotPlan(ds, es));
      InsertAllFirstWins(booked.experiences, Seed.ExperiencePlan(es));
      InsertAllFirstWins(booked.timeslots, Seed.TimeslotPlan(ds, es));
      InsertAllFirstWins(db.timeslots, Seed.TimeslotPlan(ds, es));
      assert FirstWins(Seed.TimeslotPlan(ds, es)) + booked.timeslots == booked.timeslots;
    }
  }
}
