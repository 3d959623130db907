/** `GET /api/experiences/:id?date=…`: the experience row and the availability view
    of its timeslots on one date. Read-only: it yields a response and no new store. */
module Availability {
  import opened Js
  import opened Catalog
  import Reservation

  /** One timeslot as the client sees it. */
  datatype SlotView = SlotView(id: string, time: string, available: bool, spotsLeft: int, total: int)

  /** The response body `{ experience, date, timeslots }`; `experience` is absent
      when no row has the id. */
  datatype ExperienceResponse = ExperienceResponse(
    experience: Option<Experience>,
    date: string,
    timeslots: seq<SlotView>)

  /** The row belongs to the experience and date the query asks for. */
  predicate Matches(t: Timeslot, experienceId: string, date: string) {
    t.experienceId == experienceId && t.date == date
  }

  /** The per-row mapping of the handler. */
  function ViewOf(id: string, t: Timeslot): (v: SlotView)
    ensures v.id == id && v.time == t.time
    ensures v.available <==> t.spotsLeft > 0
    ensures v.spotsLeft == t.spotsLeft && v.total == t.totalSpots
  {
    SlotView(id, t.time, t.spotsLeft > 0, t.spotsLeft, t.totalSpots)
  }

  /** The matching rows, visited in the order `order` lists ids (the order the store
      returns them in), each mapped to its view. */
  function Project(db: Db, experienceId: string, date: string, order: seq<string>): (r: seq<SlotView>)
    ensures |r| <= |order|
    ensures forall i :: 0 <= i < |r| ==>
      && r[i].id in order
      && r[i].id in db.timeslots
      && Matches(db.timeslots[r[i].id], experienceId, date)
      && r[i] == ViewOf(r[i].id, db.timeslots[r[i].id])
    decreases |order|
  {
    if order == [] then []
    else
      var rest := Project(db, experienceId, date, order[1..]);
      var id := order[0];
      if id in db.timeslots && Matches(db.timeslots[id], experienceId, date)
      then [ViewOf(id, db.timeslots[id])] + rest
      else rest
  }

  /** `order` lists every timeslot id, each once. */
  predicate IsScanOrder(db: Db, order: seq<string>) {
    && (forall t :: t in db.timeslots ==> t in order)
    && (forall i, j :: 0 <= i < j < |order| ==> order[i] != order[j])
  }

  predicate HasView(r: seq<SlotView>, id: string, i: int) {
    0 <= i < |r| && r[i].id == id
  }

  /** A matching row listed in `order` has a view; the index of one is returned. */
  lemma {:induction false} ProjectHasRow(db: Db, experienceId: string, date: string, order: seq<string>, t: string)
    returns (i: int)
    requires t in order && t in db.timeslots && Matches(db.timeslots[t], experienceId, date)
    ensures HasView(Project(db, experienceId, date, order), t, i)
    decreases |order|
  {
    var r := Project(db, experienceId, date, order);
    var rest := Project(db, experienceId, date, order[1..]);
    if t == order[0] {
      i := 0;
    } else {
      assert t in order[1..];
      var j := ProjectHasRow(db, experienceId, date, order[1..], t);
      if order[0] in db.timeslots && Matches(db.timeslots[order[0]], experienceId, date) {
        assert r == [ViewOf(order[0], db.timeslots[order[0]])] + rest;
        i := j + 1;
      } else {
        assert r == rest;
        i := j;
      }
    }
  }

  /** No two views share an id. */
  predicate DistinctViews(r: seq<SlotView>) {
    forall i, j :: 0 <= i < j < |r| ==> r[i].id != r[j].id
  }

  /** Given each id once, no two views share an id. */
  lemma {:induction false} ProjectDistinct(db: Db, experienceId: string, date: string, order: seq<string>)
    requires forall i, j :: 0 <= i < j < |order| ==> order[i] != order[j]
    ensures DistinctViews(Project(db, experienceId, date, order))
    decreases |order|
  {
    if order != [] {
      var r := Project(db, experienceId, date, order);
      var rest := Project(db, experienceId, date, order[1..]);
      ProjectDistinct(db, experienceId, date, order[1..]);
      if order[0] in db.timeslots && Matches(db.timeslots[order[0]], experienceId, date) {
        assert r == [ViewOf(order[0], db.timeslots[order[0]])] + rest;
        forall k | 0 <= k < |rest|
          ensures rest[k].id != order[0]
        {
          var m :| 0 <= m < |order[1..]| && order[1..][m] == rest[k].id;
          assert order[m + 1] == rest[k].id;
        }
        forall i, j | 0 <= i < j < |r|
          ensures r[i].id != r[j].id
        {
          if i == 0 {
            assert r[0].id == order[0] && r[j] == rest[j - 1];
          } else {
            assert r[i] == rest[i - 1] && r[j] == rest[j - 1];
            assert rest[i - 1].id != rest[j - 1].id;
          }
        }
      } else {
        assert r == rest;
        forall i, j | 0 <= i < j < |r|
          ensures r[i].id != r[j].id
        {
          assert r[i] == rest[i] && r[j] == rest[j];
          assert rest[i].id != rest[j].id;
        }
      }
    }
  }

  /** Given every row once, the projection has one view per matching row and no other. */
  lemma ProjectComplete(db: Db, experienceId: string, date: string, order: seq<string>)
    requires forall i, j :: 0 <= i < j < |order| ==> order[i] != order[j]
    ensures var r := Project(db, experienceId, date, order);
      && (forall t :: t in order && t in db.timeslots && Matches(db.timeslots[t], experienceId, date)
            ==> exists i :: HasView(r, t, i))
      && DistinctViews(r)
  {
    var r := Project(db, experienceId, date, order);
    forall t | t in order && t in db.timeslots && Matches(db.timeslots[t], experienceId, date)
      ensures exists i :: HasView(r, t, i)
    {
      var i := ProjectHasRow(db, experienceId, date, order, t);
    }
    assert r == Project(db, experienceId, date, order);
    ProjectDistinct(db, experienceId, date, order);
  }

  /** With a full scan order, the projection is empty exactly when no row matches. */
  lemma ProjectEmptyIff(db: Db, experienceId: string, date: string, order: seq<string>)
    requires IsScanOrder(db, order)
    ensures Project(db, experienceId, date, order) == []
        <==> forall t :: t in db.timeslots ==> !Matches(db.timeslots[t], experienceId, date)
  {
    var r := Project(db, experienceId, date, order);
    ProjectComplete(db, experienceId, date, order);
    if r == [] {
      forall t | t in db.timeslots
        ensures !Matches(db.timeslots[t], experienceId, date)
      {
        assert t in order;
      }
    } else {
      assert r[0].id in db.timeslots;
    }
  }

  /** The handler: the date query parameter, or today when it is absent or empty;
      the experience row; the projected slots. */
  function GetExperience(db: Db, id: string, queryDate: Option<string>, today: string, order: seq<string>)
    : (r: ExperienceResponse)
    ensures Given(queryDate) ==> r.date == queryDate.value
    ensures !Given(queryDate) ==> r.date == today
    ensures r.experience.Some? <==> id in db.experiences
    ensures r.experience.Some? ==> r.experience.value == db.experiences[id]
    ensures forall i :: 0 <= i < |r.timeslots| ==>
      r.timeslots[i].id in db.timeslots && Matches(db.timeslots[r.timeslots[i].id], id, r.date)
  {
    var date := if Given(queryDate) then queryDate.value else today;
    var exp := if id in db.experiences then Some(db.experiences[id]) else None;
    ExperienceResponse(exp, date, Project(db, id, date, order))
  }

  /** After a successful reservation the projection lists the same slots in the same
      order; only the reserved slot's view changes, and only in `spotsLeft` and
      `available`. */
  lemma {:induction false} ProjectAfterReserve(db: Db, req: Reservation.Request, newId: string,
                                               experienceId: string, date: string, order: seq<string>)
    requires Reservation.FreshBookingId(db, newId)
    requires Reservation.Reserve(db, req, newId).1.Booked?
    ensures var db' := Reservation.Reserve(db, req, newId).0;
      var r := Project(db, experienceId, date, order);
      var r' := Project(db', experienceId, date, order);
      && |r'| == |r|
      && forall i :: 0 <= i < |r| ==>
        && r'[i].id == r[i].id && r'[i].time == r[i].time && r'[i].total == r[i].total
        && (r[i].id != req.timeslotId.value ==> r'[i] == r[i])
        && (r[i].id == req.timeslotId.value ==> r'[i].spotsLeft == r[i].spotsLeft - req.seats.value)
  {
    Reservation.ReserveSuccessEffect(db, req, newId);
    var db' := Reservation.Reserve(db, req, newId).0;
    ProjectAfterSpotsChange(db, db', req.timeslotId.value, req.seats.value, experienceId, date, order);
  }

  /** The projection of a store in which only one slot's `spotsLeft` moved by `seats`. */
  lemma {:induction false} ProjectAfterSpotsChange(db: Db, db': Db, tid: string, seats: int,
                                                   experienceId: string, date: string, order: seq<string>)
    requires db'.timeslots.Keys == db.timeslots.Keys && tid in db.timeslots
    requires db'.timeslots[tid] == db.timeslots[tid].(spotsLeft := db.timeslots[tid].spotsLeft - seats)
    requires forall t :: t in db.timeslots && t != tid ==> db'.timeslots[t] == db.timeslots[t]
    ensures var r := Project(db, experienceId, date, order);
      var r' := Project(db', experienceId, date, order);
      && |r'| == |r|
      && forall i :: 0 <= i < |r| ==>
        && r'[i].id == r[i].id && r'[i].time == r[i].time && r'[i].total == r[i].total
        && (r[i].id != tid ==> r'[i] == r[i])
        && (r[i].id == tid ==> r'[i].spotsLeft == r[i].spotsLeft - seats)
    decreases |order|
  {
    if order != [] {
      ProjectAfterSpotsChange(db, db', tid, seats, experienceId, date, order[1..]);
      var id := order[0];
      if id in db.timeslots {
        assert Matches(db'.timeslots[id], experienceId, date) <==> Matches(db.timeslots[id], experienceId, date);
      }
    }
  }
}
