/** The experience details page: date and time pickers, the guest-quantity stepper,
    the price panel and the confirm button that records the selection. */
module ExperienceDetails {
  import opened Js
  import opened Catalog
  import BookingStore
  import Checkout

  /** A time the page offers, with the number of free places it displays. */
  datatype TimeOption = TimeOption(time: string, slots: int)

  /** The fixed dates the page offers. */
  const AvailableDates: seq<string> := ["2025-11-01", "2025-11-02", "2025-11-03", "2025-11-04"]

  /** The fixed times the page offers; the third is sold out. */
  const AvailableTimes: seq<TimeOption> := [
    TimeOption("09:00 AM", 5),
    TimeOption("12:00 PM", 3),
    TimeOption("03:00 PM", 0),
    TimeOption("06:00 PM", 8)
  ]

  /** The page's state: the loaded experience (none until it arrives or when the id
      has no row), the picked date and time (`""` for none) and the quantity. */
  datatype Page = Page(experience: Option<Experience>, date: string, time: string, quantity: int)

  /** The page as it opens, once the load finished. */
  function Open(experience: Option<Experience>): (p: Page)
    ensures p.quantity == 1 && p.date == "" && p.time == ""
    ensures p.experience == experience
  {
    Page(experience, "", "", 1)
  }

  /** The minus button: one fewer, but never below one. */
  function Decrement(p: Page): (r: Page)
    ensures r == p.(quantity := r.quantity)
    ensures p.quantity > 1 ==> r.quantity == p.quantity - 1
    ensures p.quantity <= 1 ==> r.quantity == 1
  {
    p.(quantity := if p.quantity - 1 > 1 then p.quantity - 1 else 1)
  }

  /** The plus button: one more, with no upper bound. The minus button takes it back. */
  function Increment(p: Page): (r: Page)
    ensures r.quantity > p.quantity
    ensures r.experience == p.experience && r.date == p.date && r.time == p.time
    ensures p.quantity >= 1 ==> Decrement(r) == p
  {
    p.(quantity := p.quantity + 1)
  }

  /** Clicking a date card selects it; the confirm button then waits only for a time. */
  function PickDate(p: Page, date: string): (r: Page)
    ensures r.date == date
    ensures r.experience == p.experience && r.time == p.time && r.quantity == p.quantity
    ensures CanConfirm(r) <==> date != "" && p.time != ""
  {
    p.(date := date)
  }

  /** Clicking a time card selects it, unless it is sold out. */
  function PickTime(p: Page, t: TimeOption): (r: Page)
    ensures t.slots > 0 ==> r == p.(time := t.time)
    ensures t.slots <= 0 ==> r == p
  {
    if t.slots > 0 then p.(time := t.time) else p
  }

  datatype Event = Minus | Plus | ChooseDate(date: string) | ChooseTime(t: TimeOption)

  function Step(p: Page, e: Event): Page {
    match e
    case Minus => Decrement(p)
    case Plus => Increment(p)
    case ChooseDate(d) => PickDate(p, d)
    case ChooseTime(t) => PickTime(p, t)
  }

  function Run(p: Page, es: seq<Event>): Page
    decreases |es|
  {
    if es == [] then p else Run(Step(p, es[0]), es[1..])
  }

  /** Whatever the user clicks, the quantity stays at least one and the loaded
      experience is kept. */
  lemma {:induction false} RunKeepsQuantity(p: Page, es: seq<Event>)
    requires p.quantity >= 1
    ensures Run(p, es).quantity >= 1
    ensures Run(p, es).experience == p.experience
    decreases |es|
  {
    if es != [] {
      RunKeepsQuantity(Step(p, es[0]), es[1..]);
    }
  }

  /** Clicking the same date card twice is clicking it once, and a later date click
      replaces an earlier one. */
  lemma PickDateIdempotent(p: Page, d1: string, d2: string)
    ensures PickDate(PickDate(p, d1), d1) == PickDate(p, d1)
    ensures PickDate(PickDate(p, d1), d2) == PickDate(p, d2)
  {
  }

  /** Pressing plus and then minus gives the original quantity back. */
  lemma DecrementUndoesIncrement(p: Page)
    requires p.quantity >= 1
    ensures Decrement(Increment(p)) == p
  {
  }

  /** `t` is one of the offered times with places left. */
  predicate Selectable(time: string) {
    exists k :: 0 <= k < |AvailableTimes| && AvailableTimes[k].time == time && AvailableTimes[k].slots > 0
  }

  /** Every time card clicked is one the page shows. */
  predicate OfferedTimes(es: seq<Event>) {
    forall i :: 0 <= i < |es| && es[i].ChooseTime? ==> es[i].t in AvailableTimes
  }

  /** Clicking only offered cards, the selected time is always none or one with
      places left: the sold-out time can never be selected. */
  lemma {:induction false} RunSelectsSelectable(p: Page, es: seq<Event>)
    requires p.time == "" || Selectable(p.time)
    requires OfferedTimes(es)
    ensures Run(p, es).time == "" || Selectable(Run(p, es).time)
    decreases |es|
  {
    if es != [] {
      var p1 := Step(p, es[0]);
      if es[0].ChooseTime? && es[0].t.slots > 0 {
        var k :| 0 <= k < |AvailableTimes| && AvailableTimes[k] == es[0].t;
        assert AvailableTimes[k].time == p1.time;
      }
      assert OfferedTimes(es[1..]) by {
        forall i | 0 <= i < |es[1..]| && es[1..][i].ChooseTime?
          ensures es[1..][i].t in AvailableTimes
        {
          assert es[1..][i] == es[i + 1];
        }
      }
      RunSelectsSelectable(p1, es[1..]);
    }
  }

  /** The sold-out time is not selectable. */
  lemma SoldOutNotSelectable()
    ensures !Selectable("03:00 PM")
    ensures Selectable("09:00 AM")
  {
    assert AvailableTimes[0].time == "09:00 AM";
  }

  /** The price panel: subtotal (price times quantity, zero before the experience is
      loaded), 18% tax, and their sum. */
  datatype Prices = Prices(subtotal: real, tax: real, total: real)

  function PricePanel(p: Page): (r: Prices)
    ensures p.experience.None? ==> r == Prices(0.0, 0.0, 0.0)
    ensures p.experience.Some? ==> r.subtotal == p.experience.value.price * p.quantity as real
    ensures r.total == r.subtotal + r.tax && r.tax * 100.0 == r.subtotal * 18.0
  {
    var subtotal := if p.experience.Some? then p.experience.value.price * p.quantity as real else 0.0;
    var tax := subtotal * (18.0 / 100.0);
    Prices(subtotal, tax, subtotal + tax)
  }

  /** Adding a guest adds exactly the unit price to the subtotal. */
  lemma PricePanelIncrement(p: Page)
    requires p.experience.Some?
    ensures PricePanel(Increment(p)).subtotal == PricePanel(p).subtotal + p.experience.value.price
  {
  }

  /** The confirm button is enabled once a date and a time are picked. */
  predicate CanConfirm(p: Page) {
    p.date != "" && p.time != ""
  }

  /** The fields `handleConfirm` records. */
  function Selection(p: Page): (details: Record)
    requires p.experience.Some?
    ensures details.Keys == {"experience_id", "guests", "date", "time", "totalPrice"}
    ensures details["experience_id"] == Str(p.experience.value.id)
    ensures details["guests"] == Num(p.quantity as real)
    ensures details["date"] == Str(p.date) && details["time"] == Str(p.time)
    ensures details["totalPrice"] == Num(PricePanel(p).total)
  {
    map["experience_id" := Str(p.experience.value.id),
        "guests" := Num(p.quantity as real),
        "date" := Str(p.date),
        "time" := Str(p.time),
        "totalPrice" := Num(PricePanel(p).total)]
  }

  /** `handleConfirm`: with an experience, a date and a time, the selection is merged
      into the store (and the app moves to checkout); otherwise nothing happens. */
  function Confirm(p: Page, st: BookingStore.Store): (r: (BookingStore.Store, bool))
    ensures r.1 <==> p.experience.Some? && CanConfirm(p)
    ensures !r.1 ==> r.0 == st
    ensures r.1 ==> r.0 == BookingStore.SetBookingDetails(st, Selection(p))
  {
    if p.experience.None? || !CanConfirm(p) then (st, false)
    else (BookingStore.SetBookingDetails(st, Selection(p)), true)
  }

  /** Confirming from a fresh store leads to a checkout page that renders nothing:
      this page records `time` but the checkout waits for `time_slot_id`. */
  lemma ConfirmThenCheckoutIsBlank(p: Page, shown: Option<Checkout.Shown>)
    requires p.experience.Some? && CanConfirm(p)
    ensures var (st, moved) := Confirm(p, BookingStore.Initial);
      moved && !Checkout.Renders(shown, st.bookingDetails)
  {
  }
}
