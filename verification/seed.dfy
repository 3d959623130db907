/** The seeding script: the six catalogue experiences and, for each seeded date and
    each experience, five timeslots, all written insert-if-absent. The dates (today
    and the six days after it, in UTC) are a parameter. */
module Seed {
  import opened Js
  import opened Catalog

  /** A slot as `generateTimeSlots` builds it, before it is tied to an experience. */
  datatype GeneratedSlot = GeneratedSlot(id: string, time: string, available: bool, spotsLeft: int, total: int)

  const SlotsPerDay: nat := 5
  /** `toISOString().slice(0, 10)` yields `YYYY-MM-DD`. */
  const DateWidth: nat := 10

  /** The slot number `k + 1` as the single digit the id carries. */
  function SlotDigit(k: nat): char
    requires k < SlotsPerDay
  {
    ('1' as int + k) as char
  }

  function SlotId(date: string, k: nat): string
    requires k < SlotsPerDay
  {
    "TS-" + date + "-" + [SlotDigit(k)]
  }

  /** The timeslot row id: the generated slot id, a dash, the experience id. */
  function RowId(slotId: string, experienceId: string): string {
    slotId + "-" + experienceId
  }

  /** The five slots of one date. */
  function GenerateTimeSlots(date: string): (r: seq<GeneratedSlot>)
    ensures |r| == SlotsPerDay
    ensures forall k :: 0 <= k < |r| ==>
      && r[k].id == SlotId(date, k)
      && r[k].total == r[k].spotsLeft >= 0
      && (r[k].available <==> r[k].spotsLeft > 0)
  {
    [ GeneratedSlot(SlotId(date, 0), "09:00 AM", true, 8, 8),
      GeneratedSlot(SlotId(date, 1), "11:00 AM", true, 5, 5),
      GeneratedSlot(SlotId(date, 2), "02:00 PM", true, 12, 12),
      GeneratedSlot(SlotId(date, 3), "04:00 PM", false, 0, 0),
      GeneratedSlot(SlotId(date, 4), "06:00 PM", true, 3, 3) ]
  }

  /** Row ids built from dates of one width determine the date, the slot number and
      the experience id. */
  lemma RowIdInjective(d1: string, k1: nat, x1: string, d2: string, k2: nat, x2: string)
    requires k1 < SlotsPerDay && k2 < SlotsPerDay
    requires |d1| == |d2|
    requires RowId(SlotId(d1, k1), x1) == RowId(SlotId(d2, k2), x2)
    ensures d1 == d2 && k1 == k2 && x1 == x2
  {
    var s1 := RowId(SlotId(d1, k1), x1);
    var s2 := RowId(SlotId(d2, k2), x2);
    var n := |d1|;
    assert s1[3..3 + n] == d1 && s2[3..3 + n] == d2;
    assert s1[n + 4] == SlotDigit(k1) && s2[n + 4] == SlotDigit(k2);
    assert s1[n + 6..] == x1 && s2[n + 6..] == x2;
  }

  /** Without one date width the scheme is ambiguous: two different triples share an id. */
  lemma RowIdsCollideAcrossWidths()
    ensures RowId(SlotId("2025-1-1", 1), "6") == RowId(SlotId("2025-1", 0), "2-6")
    ensures "2025-1-1" != "2025-1"
  {
  }

  /** The timeslot row the script inserts for slot `k` of `date` and experience `e`;
      both capacity columns take the generated `spotsLeft`. */
  function Entry(date: string, e: Experience, k: nat): (string, Timeslot)
    requires k < SlotsPerDay
  {
    var s := GenerateTimeSlots(date)[k];
    (RowId(s.id, e.id), Timeslot(e.id, date, s.time, s.spotsLeft, s.spotsLeft))
  }

  function ExperienceSlots(date: string, e: Experience): seq<(string, Timeslot)> {
    seq(SlotsPerDay, k requires 0 <= k < SlotsPerDay => Entry(date, e, k))
  }

  /** One iteration of the date loop: every experience, every slot. */
  function DayPlan(date: string, es: seq<Experience>): seq<(string, Timeslot)>
    decreases |es|
  {
    if es == [] then [] else ExperienceSlots(date, es[0]) + DayPlan(date, es[1..])
  }

  /** All timeslot inserts in the script's loop order: date, experience, slot. */
  function TimeslotPlan(dates: seq<string>, es: seq<Experience>): seq<(string, Timeslot)>
    decreases |dates|
  {
    if dates == [] then [] else DayPlan(dates[0], es) + TimeslotPlan(dates[1..], es)
  }

  /** All experience inserts, in list order. */
  function ExperiencePlan(es: seq<Experience>): (rows: seq<(string, Experience)>)
    ensures |rows| == |es|
    ensures forall i :: 0 <= i < |es| ==> rows[i] == (es[i].id, es[i])
  {
    seq(|es|, i requires 0 <= i < |es| => (es[i].id, es[i]))
  }

  /** The script: experiences first, then the timeslots, each row insert-if-absent.
      Afterwards the tables hold the ids they held and every id the script lists, and
      the bookings are not touched. */
  function SeedDb(db: Db, es: seq<Experience>, dates: seq<string>): (r: Db)
    ensures r.bookings == db.bookings
    ensures r.experiences.Keys == db.experiences.Keys + KeysOf(ExperiencePlan(es))
    ensures r.timeslots.Keys == db.timeslots.Keys + KeysOf(TimeslotPlan(dates, es))
  {
    InsertAllFirstWins(db.experiences, ExperiencePlan(es));
    InsertAllFirstWins(db.timeslots, TimeslotPlan(dates, es));
    db.(experiences := InsertAll(db.experiences, ExperiencePlan(es)),
        timeslots := InsertAll(db.timeslots, TimeslotPlan(dates, es)))
  }

  predicate InDay(date: string, es: seq<Experience>, x: (string, Timeslot)) {
    exists j, k :: 0 <= j < |es| && 0 <= k < SlotsPerDay && x == Entry(date, es[j], k)
  }

  predicate Planned(dates: seq<string>, es: seq<Experience>, x: (string, Timeslot)) {
    exists i :: 0 <= i < |dates| && InDay(dates[i], es, x)
  }

  lemma {:induction false} DayPlanMember(date: string, es: seq<Experience>, x: (string, Timeslot))
    ensures x in DayPlan(date, es) <==> InDay(date, es, x)
    decreases |es|
  {
    if es != [] {
      DayPlanMember(date, es[1..], x);
      if x in ExperienceSlots(date, es[0]) {
        var k :| 0 <= k < SlotsPerDay && ExperienceSlots(date, es[0])[k] == x;
        assert x == Entry(date, es[0], k);
      }
      if InDay(date, es[1..], x) {
        var j, k :| 0 <= j < |es[1..]| && 0 <= k < SlotsPerDay && x == Entry(date, es[1..][j], k);
        assert x == Entry(date, es[j + 1], k);
      }
      if InDay(date, es, x) {
        var j, k :| 0 <= j < |es| && 0 <= k < SlotsPerDay && x == Entry(date, es[j], k);
        if j == 0 {
          assert ExperienceSlots(date, es[0])[k] == x;
        } else {
          assert x == Entry(date, es[1..][j - 1], k);
        }
      }
    }
  }

  /** A row is inserted by the script exactly when it is the row of some seeded date,
      some listed experience and some slot number. */
  lemma {:induction false} TimeslotPlanMember(dates: seq<string>, es: seq<Experience>, x: (string, Timeslot))
    ensures x in TimeslotPlan(dates, es) <==> Planned(dates, es, x)
    decreases |dates|
  {
    if dates != [] {
      TimeslotPlanMember(dates[1..], es, x);
      DayPlanMember(dates[0], es, x);
      if Planned(dates[1..], es, x) {
        var i :| 0 <= i < |dates[1..]| && InDay(dates[1..][i], es, x);
        assert InDay(dates[i + 1], es, x);
      }
      if Planned(dates, es, x) {
        var i :| 0 <= i < |dates| && InDay(dates[i], es, x);
        if i > 0 {
          assert InDay(dates[1..][i - 1], es, x);
        }
      }
    }
  }

  predicate FixedWidth(dates: seq<string>) {
    forall i :: 0 <= i < |dates| ==> |dates[i]| == DateWidth
  }

  /** With one date width, the script never gives one id two different rows. */
  lemma PlanFunctional(dates: seq<string>, es: seq<Experience>)
    requires FixedWidth(dates)
    ensures var rows := TimeslotPlan(dates, es);
      forall a, b :: 0 <= a < |rows| && 0 <= b < |rows| && rows[a].0 == rows[b].0 ==> rows[a].1 == rows[b].1
  {
    var rows := TimeslotPlan(dates, es);
    forall a, b | 0 <= a < |rows| && 0 <= b < |rows| && rows[a].0 == rows[b].0
      ensures rows[a].1 == rows[b].1
    {
      TimeslotPlanMember(dates, es, rows[a]);
      TimeslotPlanMember(dates, es, rows[b]);
      var i1 :| 0 <= i1 < |dates| && InDay(dates[i1], es, rows[a]);
      var j1, k1 :| 0 <= j1 < |es| && 0 <= k1 < SlotsPerDay && rows[a] == Entry(dates[i1], es[j1], k1);
      var i2 :| 0 <= i2 < |dates| && InDay(dates[i2], es, rows[b]);
      var j2, k2 :| 0 <= j2 < |es| && 0 <= k2 < SlotsPerDay && rows[b] == Entry(dates[i2], es[j2], k2);
      RowIdInjective(dates[i1], k1, es[j1].id, dates[i2], k2, es[j2].id);
    }
  }

  /** Re-seeding is insert-if-absent: every experience and timeslot row already in the
      store, a decremented `spots_left` included, is left exactly as it was. */
  lemma SeedKeepsExisting(db: Db, es: seq<Experience>, dates: seq<string>)
    ensures var r := SeedDb(db, es, dates);
      && r.bookings == db.bookings
      && (forall id :: id in db.experiences ==> id in r.experiences && r.experiences[id] == db.experiences[id])
      && (forall id :: id in db.timeslots ==> id in r.timeslots && r.timeslots[id] == db.timeslots[id])
  {
    InsertAllFirstWins(db.experiences, ExperiencePlan(es));
    InsertAllFirstWins(db.timeslots, TimeslotPlan(dates, es));
  }

  /** Every timeslot row the script adds is the row of a seeded date, a listed
      experience and a slot number, with `total_spots == spots_left >= 0`. */
  lemma SeedNewTimeslots(db: Db, es: seq<Experience>, dates: seq<string>)
    ensures var r := SeedDb(db, es, dates);
      forall id :: id in r.timeslots && id !in db.timeslots ==>
        && Planned(dates, es, (id, r.timeslots[id]))
        && r.timeslots[id].totalSpots == r.timeslots[id].spotsLeft >= 0
  {
    var rows := TimeslotPlan(dates, es);
    var r := SeedDb(db, es, dates);
    InsertAllFirstWins(db.timeslots, rows);
    forall id | id in r.timeslots && id !in db.timeslots
      ensures Planned(dates, es, (id, r.timeslots[id]))
      ensures r.timeslots[id].totalSpots == r.timeslots[id].spotsLeft >= 0
    {
      FirstWinsFrom(rows, id);
      var i :| HasRowAt(rows, id, i) && FirstWins(rows)[id] == rows[i].1;
      assert rows[i] == (id, r.timeslots[id]);
      TimeslotPlanMember(dates, es, rows[i]);
      var d :| 0 <= d < |dates| && InDay(dates[d], es, rows[i]);
      var j, k :| 0 <= j < |es| && 0 <= k < SlotsPerDay && rows[i] == Entry(dates[d], es[j], k);
    }
  }

  /** Every planned row id ends up in the store; when the id was new and the dates
      share one width, the row is exactly the planned one. */
  lemma SeedCovers(db: Db, es: seq<Experience>, dates: seq<string>, i: int, j: int, k: nat)
    requires 0 <= i < |dates| && 0 <= j < |es| && k < SlotsPerDay
    ensures var r := SeedDb(db, es, dates);
      var x := Entry(dates[i], es[j], k);
      && x.0 in r.timeslots
      && (FixedWidth(dates) && x.0 !in db.timeslots ==> r.timeslots[x.0] == x.1)
  {
    var rows := TimeslotPlan(dates, es);
    var x := Entry(dates[i], es[j], k);
    InsertAllFirstWins(db.timeslots, rows);
    assert InDay(dates[i], es, x);
    TimeslotPlanMember(dates, es, x);
    var a :| 0 <= a < |rows| && rows[a] == x;
    KeysOfIff(rows, x.0);
    assert HasRowAt(rows, x.0, a);
    if FixedWidth(dates) && x.0 !in db.timeslots {
      PlanFunctional(dates, es);
      FirstWinsFunctional(rows, a);
    }
  }

  /** Rows of the store that belong to experience `eid` on `date`. */
  function SlotsOf(m: map<string, Timeslot>, eid: string, date: string): set<string> {
    set id | id in m && m[id].experienceId == eid && m[id].date == date
  }

  /** The five row ids the scheme gives experience `eid` on `date`. */
  function DayIds(date: string, eid: string): set<string> {
    set k: nat | k < SlotsPerDay :: RowId(SlotId(date, k), eid)
  }

  lemma DayIdsCount(date: string, eid: string)
    ensures |DayIds(date, eid)| == SlotsPerDay
  {
    var ids := seq(SlotsPerDay, k requires 0 <= k < SlotsPerDay => RowId(SlotId(date, k), eid));
    forall a, b | 0 <= a < b < SlotsPerDay
      ensures ids[a] != ids[b]
    {
      if ids[a] == ids[b] {
        RowIdInjective(date, a, eid, date, b, eid);
      }
    }
    assert DayIds(date, eid) == {ids[0], ids[1], ids[2], ids[3], ids[4]};
  }

  /** From an empty timeslot table, a seeded row of `eid` on a seeded `date` has one of its five ids. */
  lemma SeededRowsAreDayIds(db: Db, es: seq<Experience>, dates: seq<string>, d: string, eid: string)
    requires db.timeslots == map[]
    ensures SlotsOf(SeedDb(db, es, dates).timeslots, eid, d) <= DayIds(d, eid)
  {
    var r := SeedDb(db, es, dates);
    SeedNewTimeslots(db, es, dates);
    forall id | id in SlotsOf(r.timeslots, eid, d)
      ensures id in DayIds(d, eid)
    {
      var x := (id, r.timeslots[id]);
      assert Planned(dates, es, x);
      var i' :| 0 <= i' < |dates| && InDay(dates[i'], es, x);
      var j', k' :| 0 <= j' < |es| && 0 <= k' < SlotsPerDay && x == Entry(dates[i'], es[j'], k');
      assert id == RowId(SlotId(d, k'), eid);
    }
  }

  /** From an empty timeslot table, each of the five ids of a listed experience on a
      seeded date holds that experience's row on that date. */
  lemma DayIdsAreSeeded(db: Db, es: seq<Experience>, dates: seq<string>, i: int, j: int)
    requires db.timeslots == map[]
    requires FixedWidth(dates)
    requires 0 <= i < |dates| && 0 <= j < |es|
    ensures DayIds(dates[i], es[j].id) <= SlotsOf(SeedDb(db, es, dates).timeslots, es[j].id, dates[i])
  {
    forall k: nat | k < SlotsPerDay
      ensures RowId(SlotId(dates[i], k), es[j].id) in SlotsOf(SeedDb(db, es, dates).timeslots, es[j].id, dates[i])
    {
      SeedCovers(db, es, dates, i, j, k);
    }
  }

  /** Seeding an empty timeslot table gives each listed experience exactly five slots
      on each seeded date, under the five ids of the scheme. */
  lemma FiveSlotsPerDay(db: Db, es: seq<Experience>, dates: seq<string>, i: int, j: int)
    requires db.timeslots == map[]
    requires FixedWidth(dates)
    requires 0 <= i < |dates| && 0 <= j < |es|
    ensures var r := SeedDb(db, es, dates);
      && SlotsOf(r.timeslots, es[j].id, dates[i]) == DayIds(dates[i], es[j].id)
      && |SlotsOf(r.timeslots, es[j].id, dates[i])| == SlotsPerDay
  {
    SeededRowsAreDayIds(db, es, dates, dates[i], es[j].id);
    DayIdsAreSeeded(db, es, dates, i, j);
    DayIdsCount(dates[i], es[j].id);
  }

  /** Seeding keeps the store consistent: new slots start with every seat free and no
      booking references them. */
  lemma SeedPreservesConsistent(db: Db, es: seq<Experience>, dates: seq<string>)
    requires Consistent(db)
    ensures Consistent(SeedDb(db, es, dates))
  {
    var r := SeedDb(db, es, dates);
    SeedKeepsExisting(db, es, dates);
    SeedNewTimeslots(db, es, dates);
    forall t | t in r.timeslots
      ensures r.timeslots[t].totalSpots - r.timeslots[t].spotsLeft == BookedSeats(r.bookings, t)
    {
      if t !in db.timeslots {
        BookedSeatsUnreferenced(db.bookings, t);
      }
    }
  }

  /** Every new experience row is a listed record, copied field for field; with
      distinct ids, each listed record is stored under its own id. */
  lemma SeedCopiesExperiences(db: Db, es: seq<Experience>, dates: seq<string>)
    ensures var r := SeedDb(db, es, dates);
      && (forall id :: id in r.experiences && id !in db.experiences ==>
            exists i :: 0 <= i < |es| && es[i] == r.experiences[id] && es[i].id == id)
      && ((forall a, b :: 0 <= a < b < |es| ==> es[a].id != es[b].id) ==>
            forall i :: 0 <= i < |es| && es[i].id !in db.experiences ==>
              es[i].id in r.experiences && r.experiences[es[i].id] == es[i])
  {
    var rows := ExperiencePlan(es);
    var r := SeedDb(db, es, dates);
    InsertAllFirstWins(db.experiences, rows);
    forall id | id in r.experiences && id !in db.experiences
      ensures exists i :: 0 <= i < |es| && es[i] == r.experiences[id] && es[i].id == id
    {
      FirstWinsFrom(rows, id);
      var i :| HasRowAt(rows, id, i) && FirstWins(rows)[id] == rows[i].1;
      assert es[i] == r.experiences[id] && es[i].id == id;
    }
    if forall a, b :: 0 <= a < b < |es| ==> es[a].id != es[b].id {
      forall i | 0 <= i < |es| && es[i].id !in db.experiences
        ensures es[i].id in r.experiences && r.experiences[es[i].id] == es[i]
      {
        FirstWinsFunctional(rows, i);
      }
    }
  }

  /** Running the script a second time changes nothing. */
  lemma SeedIdempotent(db: Db, es: seq<Experience>, dates: seq<string>)
    ensures SeedDb(SeedDb(db, es, dates), es, dates) == SeedDb(db, es, dates)
  {
    var r := SeedDb(db, es, dates);
    InsertAllFirstWins(db.experiences, ExperiencePlan(es));
    InsertAllFirstWins(db.timeslots, TimeslotPlan(dates, es));
    InsertAllFirstWins(r.experiences, ExperiencePlan(es));
    InsertAllFirstWins(r.timeslots, TimeslotPlan(dates, es));
    assert FirstWins(ExperiencePlan(es)) + r.experiences == r.experiences;
    assert FirstWins(TimeslotPlan(dates, es)) + r.timeslots == r.timeslots;
  }

  /** The six catalogue records of the script. */
  const MockExperiences: seq<Experience> := [
    Experience("1", "Sunset Beach Yoga",
      "Relax and rejuvenate with a peaceful yoga session on the beach as the sun sets over the ocean.",
      45.0, "https://images.unsplash.com/photo-1506905925346-21bda4d32df4?w=800&h=600&fit=crop",
      "1.5 hours", "Santa Monica Beach", 4.8, 124),
    Experience("2", "Mountain Hiking Adventure",
      "Explore scenic mountain trails with an experienced guide. Perfect for nature lovers.",
      75.0, "https://images.unsplash.com/photo-1551632811-561732d1e306?w=800&h=600&fit=crop",
      "4 hours", "Blue Ridge Mountains", 4.9, 89),
    Experience("3", "City Food Tour",
      "Discover hidden culinary gems and taste authentic local cuisine on this guided food tour.",
      65.0, "https://images.unsplash.com/photo-1555939594-58d7cb561ad1?w=800&h=600&fit=crop",
      "3 hours", "Downtown District", 4.7, 156),
    Experience("4", "Sunset Sailing Experience",
      "Sail into the sunset on a private yacht with champagne and stunning coastal views.",
      120.0, "https://images.unsplash.com/photo-1544551763-46a013bb70d5?w=800&h=600&fit=crop",
      "2 hours", "Marina Bay", 5.0, 73),
    Experience("5", "Photography Walking Tour",
      "Capture the city's beauty through your lens with tips from a professional photographer.",
      55.0, "https://images.unsplash.com/photo-1452587925148-ce544e77e70d?w=800&h=600&fit=crop",
      "2.5 hours", "Historic Quarter", 4.6, 92),
    Experience("6", "Wine Tasting Experience",
      "Sample premium wines and learn about winemaking from expert sommeliers.",
      85.0, "https://images.unsplash.com/photo-1510812431401-41d2bd2722f3?w=800&h=600&fit=crop",
      "2 hours", "Napa Valley Vineyard", 4.9, 134)
  ]

  lemma MockIdsDistinct()
    ensures forall a, b :: 0 <= a < b < |MockExperiences| ==> MockExperiences[a].id != MockExperiences[b].id
  {
    var ids := seq(|MockExperiences|, i requires 0 <= i < |MockExperiences| => MockExperiences[i].id);
    assert ids == ["1", "2", "3", "4", "5", "6"];
  }

  /** The script as it runs: the catalogue records over the seeded dates. Each record
      whose id was not yet stored is stored under its id, unchanged. */
  function SeedScript(db: Db, dates: seq<string>): (r: Db)
    ensures forall i :: 0 <= i < |MockExperiences| && MockExperiences[i].id !in db.experiences
              ==> MockExperiences[i].id in r.experiences && r.experiences[MockExperiences[i].id] == MockExperiences[i]
  {
    MockIdsDistinct();
    SeedCopiesExperiences(db, MockExperiences, dates);
    SeedDb(db, MockExperiences, dates)
  }
}
