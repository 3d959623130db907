/** The time-selection page: the slots the availability endpoint returned for the
    picked date, a selection among the available ones, and the continue button that
    records it. */
module SelectTime {
  import opened Js
  import opened Catalog
  import BookingStore
  import Availability
  import Checkout

  /** The loaded experience (`null` when the response had none), the slot views and
      the selected slot id (`undefined` until a click). */
  datatype Page = Page(experience: Option<Experience>, slots: seq<Availability.SlotView>,
                       selected: Option<string>)

  /** The page once the response arrived: its experience and slots, nothing selected. */
  function Open(resp: Availability.ExperienceResponse): (p: Page)
    ensures p.experience == resp.experience
    ensures p.slots == resp.timeslots && p.selected.None?
  {
    Page(resp.experience, resp.timeslots, None)
  }

  /** Without an experience the page shows only "Experience not found.": no slot
      cards and no continue button. */
  predicate ShowsSlots(p: Page) {
    p.experience.Some?
  }

  /** Clicking a slot card: an available slot becomes the selection, a sold-out one
      changes nothing, and a page that shows no cards cannot be clicked. */
  function ClickSlot(p: Page, slot: Availability.SlotView): (r: Page)
    ensures ShowsSlots(p) && slot.available ==> r == p.(selected := Some(slot.id))
    ensures !ShowsSlots(p) || !slot.available ==> r == p
  {
    if ShowsSlots(p) && slot.available then p.(selected := Some(slot.id)) else p
  }

  /** `id` names an available slot among those the page shows. */
  predicate AvailableOnPage(p: Page, id: string) {
    exists k :: 0 <= k < |p.slots| && p.slots[k].id == id && p.slots[k].available
  }

  /** Clicks are on cards the page shows. */
  predicate ShownSlots(p: Page, clicks: seq<Availability.SlotView>) {
    forall i :: 0 <= i < |clicks| ==> clicks[i] in p.slots
  }

  function Clicks(p: Page, clicks: seq<Availability.SlotView>): Page
    decreases |clicks|
  {
    if clicks == [] then p else Clicks(ClickSlot(p, clicks[0]), clicks[1..])
  }

  /** Whatever cards are clicked, the experience and the slots stay, the selection is
      nothing or an available slot on the page, and a page that shows no cards is
      left as it is. */
  lemma {:induction false} ClicksSelectAvailable(p: Page, clicks: seq<Availability.SlotView>)
    requires p.selected.None? || AvailableOnPage(p, p.selected.value)
    requires ShownSlots(p, clicks)
    ensures Clicks(p, clicks).experience == p.experience
    ensures Clicks(p, clicks).slots == p.slots
    ensures var s := Clicks(p, clicks).selected;
      s.None? || AvailableOnPage(p, s.value)
    ensures !ShowsSlots(p) ==> Clicks(p, clicks) == p
    decreases |clicks|
  {
    if clicks != [] {
      var p1 := ClickSlot(p, clicks[0]);
      if ShowsSlots(p) && clicks[0].available {
        var k :| 0 <= k < |p.slots| && p.slots[k] == clicks[0];
        assert AvailableOnPage(p1, clicks[0].id);
      }
      assert ShownSlots(p1, clicks[1..]) by {
        forall i | 0 <= i < |clicks[1..]|
          ensures clicks[1..][i] in p1.slots
        {
          assert clicks[1..][i] == clicks[i + 1];
        }
      }
      ClicksSelectAvailable(p1, clicks[1..]);
    }
  }

  /** On a page loaded from the store, a slot the user can select names a timeslot
      that had places left when the page loaded, and the experience exists. */
  lemma SelectedHadPlaces(db: Db, eid: string, date: Option<string>, today: string, order: seq<string>,
                          clicks: seq<Availability.SlotView>)
    requires ShownSlots(Open(Availability.GetExperience(db, eid, date, today, order)), clicks)
    ensures var p := Clicks(Open(Availability.GetExperience(db, eid, date, today, order)), clicks);
      p.selected.Some? ==>
        && eid in db.experiences
        && p.selected.value in db.timeslots && db.timeslots[p.selected.value].spotsLeft > 0
  {
    var resp := Availability.GetExperience(db, eid, date, today, order);
    var p0 := Open(resp);
    ClicksSelectAvailable(p0, clicks);
    var p := Clicks(p0, clicks);
    if p.selected.Some? {
      var k :| 0 <= k < |p0.slots| && p0.slots[k].id == p.selected.value && p0.slots[k].available;
      assert resp.timeslots[k].id in db.timeslots;
    }
  }

  /** `handleContinue`: with a selection, merge `time_slot_id` into the selection in
      the store (and move to checkout); without one, nothing happens. The button is
      rendered only when the page shows its slots. */
  function Continue(p: Page, st: BookingStore.Store): (r: (BookingStore.Store, bool))
    ensures r.1 <==> ShowsSlots(p) && Given(p.selected)
    ensures !r.1 ==> r.0 == st
    ensures r.1 ==> r.0.userInfo == st.userInfo && r.0.promoCode == st.promoCode
    ensures r.1 ==> r.0.bookingDetails == st.bookingDetails["time_slot_id" := Str(p.selected.value)]
  {
    if !ShowsSlots(p) || !Given(p.selected) then (st, false)
    else (BookingStore.SetBookingDetails(st, map["time_slot_id" := Str(p.selected.value)]), true)
  }

  /** The page loads only once the store holds a date; continuing from it gives
      the checkout everything its render guard asks of the store. */
  lemma ContinueEnablesCheckout(p: Page, st: BookingStore.Store, shown: Option<Checkout.Shown>)
    requires Present(st.bookingDetails, "date")
    requires Given(p.selected)
    ensures var (st', moved) := Continue(p, st);
      && (moved <==> ShowsSlots(p))
      && (moved ==> (Checkout.Renders(shown, st'.bookingDetails) <==> shown.Some?))
  {
  }

  /** For an id with no experience row the page reads "Experience not found.": no
      click selects anything and continuing leaves the store alone, even when the
      response carries timeslots. */
  lemma NotFoundPageIsInert(db: Db, eid: string, date: Option<string>, today: string, order: seq<string>,
                            clicks: seq<Availability.SlotView>, st: BookingStore.Store)
    requires eid !in db.experiences
    ensures var p := Clicks(Open(Availability.GetExperience(db, eid, date, today, order)), clicks);
      p.selected.None? && Continue(p, st) == (st, false)
  {
    var p0 := Open(Availability.GetExperience(db, eid, date, today, order));
    NotShownClicks(p0, clicks);
  }

  /** Clicks on a page that shows no cards change nothing. */
  lemma {:induction false} NotShownClicks(p: Page, clicks: seq<Availability.SlotView>)
    requires !ShowsSlots(p)
    ensures Clicks(p, clicks) == p
    decreases |clicks|
  {
    if clicks != [] {
      NotShownClicks(p, clicks[1..]);
    }
  }
}
