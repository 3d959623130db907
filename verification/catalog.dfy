/** The three relations the server keeps in Postgres (experiences, timeslots,
    bookings), the insert-if-absent write the seeder uses, and the relationship
    invariant between timeslot capacity and the bookings that reference a slot. */
module Catalog {
  import opened Js

  /** An experience row. Reference data: written by the seeder, never by a reservation. */
  datatype Experience = Experience(
    id: string,
    title: string,
    description: string,
    price: real,
    image: string,
    duration: string,
    location: string,
    rating: real,
    reviews: int)

  /** A timeslot row, keyed by its id in `Db.timeslots`. */
  datatype Timeslot = Timeslot(
    experienceId: string,
    date: string,
    time: string,
    totalSpots: int,
    spotsLeft: int)

  /** A booking row. `date` and `time` are stored as the request gave them, and an
      absent one is stored as NULL. */
  datatype Booking = Booking(
    id: string,
    experienceId: string,
    timeslotId: string,
    date: Option<string>,
    time: Option<string>,
    customerName: string,
    customerEmail: string,
    seats: int)

  /** The whole store: two keyed tables and the append-only booking ledger. */
  datatype Db = Db(
    experiences: map<string, Experience>,
    timeslots: map<string, Timeslot>,
    bookings: seq<Booking>)

  const EmptyDb: Db := Db(map[], map[], [])

  /** The sum of `seats` over the bookings that reference `slotId`. */
  function BookedSeats(bs: seq<Booking>, slotId: string): int {
    if bs == [] then 0
    else (if bs[0].timeslotId == slotId then bs[0].seats else 0) + BookedSeats(bs[1..], slotId)
  }

  /** Appending a booking adds its seats to its own slot's sum and to no other. */
  lemma {:induction false} BookedSeatsAppend(bs: seq<Booking>, b: Booking, slotId: string)
    ensures BookedSeats(bs + [b], slotId)
         == BookedSeats(bs, slotId) + (if b.timeslotId == slotId then b.seats else 0)
  {
    if bs == [] {
      assert bs + [b] == [b];
    } else {
      assert (bs + [b])[1..] == bs[1..] + [b];
      BookedSeatsAppend(bs[1..], b, slotId);
    }
  }

  /** A slot no booking references has no booked seats. */
  lemma {:induction false} BookedSeatsUnreferenced(bs: seq<Booking>, slotId: string)
    requires forall i :: 0 <= i < |bs| ==> bs[i].timeslotId != slotId
    ensures BookedSeats(bs, slotId) == 0
  {
    if bs != [] {
      BookedSeatsUnreferenced(bs[1..], slotId);
    }
  }

  /** When no booking carries a negative seat count, no slot has a negative sum. */
  lemma {:induction false} BookedSeatsNonNegative(bs: seq<Booking>, slotId: string)
    requires forall i :: 0 <= i < |bs| ==> bs[i].seats >= 0
    ensures BookedSeats(bs, slotId) >= 0
  {
    if bs != [] {
      BookedSeatsNonNegative(bs[1..], slotId);
    }
  }

  predicate DistinctBookingIds(bs: seq<Booking>) {
    forall i, j :: 0 <= i < j < |bs| ==> bs[i].id != bs[j].id
  }

  /** For every slot, the seats taken from it are exactly the seats its bookings hold. */
  predicate SeatsAccounted(db: Db) {
    forall t :: t in db.timeslots ==>
      db.timeslots[t].totalSpots - db.timeslots[t].spotsLeft == BookedSeats(db.bookings, t)
  }

  predicate NonNegativeSpots(db: Db) {
    forall t :: t in db.timeslots ==> db.timeslots[t].spotsLeft >= 0
  }

  predicate BookingsReferenceSlots(db: Db) {
    forall i :: 0 <= i < |db.bookings| ==> db.bookings[i].timeslotId in db.timeslots
  }

  /** The relationship invariant the reservation transaction exists to keep. It bounds
      every slot's booked seats by its capacity. */
  predicate Consistent(db: Db)
    ensures Consistent(db) ==>
      forall t :: t in db.timeslots ==> BookedSeats(db.bookings, t) <= db.timeslots[t].totalSpots
  {
    && SeatsAccounted(db)
    && NonNegativeSpots(db)
    && BookingsReferenceSlots(db)
    && DistinctBookingIds(db.bookings)
  }

  /** A store with no timeslots is consistent exactly when it holds no bookings. */
  lemma ConsistentWithoutTimeslots(db: Db)
    requires db.timeslots == map[]
    ensures Consistent(db) <==> db.bookings == []
  {
    if db.bookings != [] {
      assert db.bookings[0].timeslotId !in db.timeslots;
    }
  }

  /** A consistent store never holds more booked seats on a slot than its capacity. */
  lemma NoOversell(db: Db, t: string)
    requires Consistent(db) && t in db.timeslots
    ensures BookedSeats(db.bookings, t) <= db.timeslots[t].totalSpots
  {
  }

  /** `INSERT … ON CONFLICT (id) DO NOTHING`: a row under an existing key is left as it is. */
  function InsertIfAbsent<K, V>(m: map<K, V>, k: K, v: V): (r: map<K, V>)
    ensures r.Keys == m.Keys + {k}
    ensures forall j :: j in m ==> r[j] == m[j]
    ensures k !in m ==> r[k] == v
  {
    if k in m then m else m[k := v]
  }

  /** The rows in order, each inserted if absent. */
  function InsertAll<K, V>(m: map<K, V>, rows: seq<(K, V)>): map<K, V>
    decreases |rows|
  {
    if rows == [] then m else InsertAll(InsertIfAbsent(m, rows[0].0, rows[0].1), rows[1..])
  }

  /** The keys a row list mentions. */
  function KeysOf<K, V>(rows: seq<(K, V)>): set<K>
    decreases |rows|
  {
    if rows == [] then {} else {rows[0].0} + KeysOf(rows[1..])
  }

  predicate HasRowAt<K(==), V>(rows: seq<(K, V)>, k: K, i: int) {
    0 <= i < |rows| && rows[i].0 == k
  }

  /** A key is mentioned exactly when some row carries it. */
  lemma {:induction false} KeysOfIff<K, V>(rows: seq<(K, V)>, k: K)
    ensures k in KeysOf(rows) <==> exists i :: HasRowAt(rows, k, i)
    decreases |rows|
  {
    if rows != [] {
      KeysOfIff(rows[1..], k);
      if k == rows[0].0 {
        assert HasRowAt(rows, k, 0);
      }
      if k in KeysOf(rows[1..]) {
        var i :| HasRowAt(rows[1..], k, i);
        assert HasRowAt(rows, k, i + 1);
      }
      if exists i :: HasRowAt(rows, k, i) {
        var i :| HasRowAt(rows, k, i);
        if i > 0 {
          assert HasRowAt(rows[1..], k, i - 1);
        }
      }
    }
  }

  /** The map a row list describes when, for a repeated key, its first row wins. */
  function FirstWins<K, V>(rows: seq<(K, V)>): (r: map<K, V>)
    ensures r.Keys == KeysOf(rows)
    decreases |rows|
  {
    if rows == [] then map[] else FirstWins(rows[1..])[rows[0].0 := rows[0].1]
  }

  /** Inserting rows one by one, each if absent, keeps every existing row and adds
      the first row given for every new key. */
  lemma {:induction false} InsertAllFirstWins<K, V>(m: map<K, V>, rows: seq<(K, V)>)
    ensures InsertAll(m, rows) == FirstWins(rows) + m
    decreases |rows|
  {
    if rows == [] {
      assert FirstWins(rows) + m == m;
    } else {
      var m1 := InsertIfAbsent(m, rows[0].0, rows[0].1);
      InsertAllFirstWins(m1, rows[1..]);
      var lhs := FirstWins(rows[1..]) + m1;
      var rhs := FirstWins(rows) + m;
      assert lhs.Keys == rhs.Keys;
      forall k | k in lhs
        ensures lhs[k] == rhs[k]
      {
      }
    }
  }

  /** In a row list that never gives one key two different rows, the first-wins map
      holds each row under its key. */
  lemma {:induction false} FirstWinsFunctional<K, V>(rows: seq<(K, V)>, i: int)
    requires 0 <= i < |rows|
    requires forall a, b :: 0 <= a < |rows| && 0 <= b < |rows| && rows[a].0 == rows[b].0
               ==> rows[a].1 == rows[b].1
    ensures rows[i].0 in FirstWins(rows) && FirstWins(rows)[rows[i].0] == rows[i].1
    decreases |rows|
  {
    KeysOfIff(rows, rows[i].0);
    assert HasRowAt(rows, rows[i].0, i);
    if i > 0 && rows[i].0 != rows[0].0 {
      FirstWinsFunctional(rows[1..], i - 1);
    }
  }

  /** Every key of the first-wins map holds a row the list gives for that key. */
  lemma {:induction false} FirstWinsFrom<K, V>(rows: seq<(K, V)>, k: K)
    requires k in FirstWins(rows)
    ensures exists i :: HasRowAt(rows, k, i) && FirstWins(rows)[k] == rows[i].1
    decreases |rows|
  {
    if k == rows[0].0 {
      assert HasRowAt(rows, k, 0);
    } else {
      FirstWinsFrom(rows[1..], k);
      var i :| HasRowAt(rows[1..], k, i) && FirstWins(rows[1..])[k] == rows[1..][i].1;
      assert HasRowAt(rows, k, i + 1);
    }
  }
}
