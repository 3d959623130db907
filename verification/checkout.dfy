/** The checkout page: the customer form, the promo code, the price summary and the
    booking request it sends. */
module Checkout {
  import opened Js
  import opened JsString
  import Catalog
  import BookingStore
  import Reservation
  import Availability

  /** The page's own state. */
  datatype Page = Page(
    name: string,
    email: string,
    phone: string,
    promoInput: string,
    promoApplied: bool,
    processing: bool)

  /** The page as it opens: the form pre-filled from the store, the promo marked
      applied when the store already holds a code. */
  function Open(st: BookingStore.Store): (p: Page)
    ensures p.name == TextOr(st.userInfo, "name")
    ensures p.email == TextOr(st.userInfo, "email")
    ensures p.phone == TextOr(st.userInfo, "phone")
    ensures p.promoInput == st.promoCode
    ensures p.promoApplied <==> st.promoCode != ""
    ensures !p.processing
  {
    Page(TextOr(st.userInfo, "name"), TextOr(st.userInfo, "email"), TextOr(st.userInfo, "phone"),
         st.promoCode, st.promoCode != "", false)
  }

  // ---------------------------------------------------------------- promo code

  /** The only code the page knows. */
  const PromoCode: string := "SAVE10"

  /** The test `handleApplyPromo` applies to what was typed. */
  predicate PromoAccepted(input: string) {
    Upper(Trim(input)) == PromoCode
  }

  /** `handleApplyPromo`, reachable only while the promo is not yet applied (the
      button is disabled afterwards). An accepted input stores the canonical code
      and marks the promo applied; a rejected one changes nothing. */
  function ApplyPromo(p: Page, st: BookingStore.Store): (r: (Page, BookingStore.Store))
    ensures p.promoApplied ==> r == (p, st)
    ensures !p.promoApplied && PromoAccepted(p.promoInput) ==>
      && r.1.promoCode == PromoCode
      && r.1.bookingDetails == st.bookingDetails && r.1.userInfo == st.userInfo
      && r.0 == p.(promoApplied := true)
    ensures !PromoAccepted(p.promoInput) ==> r == (p, st)
  {
    if p.promoApplied || !PromoAccepted(p.promoInput) then (p, st)
    else (p.(promoApplied := true), BookingStore.SetPromoCode(st, PromoCode))
  }

  /** Once the checkout accepts a promo input, the store's promo check asks about the
      canonical code and nothing else. */
  lemma ApplyPromoThenValidate(p: Page, st: BookingStore.Store)
    requires !p.promoApplied && PromoAccepted(p.promoInput)
    ensures BookingStore.ValidatePromoBody(ApplyPromo(p, st).1) == Some(map["code" := Str(PromoCode)])
  {
  }

  /** `input` is the code `input[i..i+6]` with nothing but whitespace around it. */
  predicate PaddedCode(input: string, i: int) {
    && 0 <= i <= |input| - |PromoCode|
    && Upper(input[i..i + |PromoCode|]) == PromoCode
    && AllWhitespace(input[..i])
    && AllWhitespace(input[i + |PromoCode|..])
  }

  /** Upper-casing leaves every whitespace character as it is. */
  lemma UpperKeepsWhitespace(c: char)
    ensures IsWhitespace(c) ==> UpperChar(c) == [c]
  {
  }

  /** No two adjacent letters of the code are the upper case of one expanding
      character, so an input upper-cased to it never held one. */
  lemma PromoCodeExpansionFree()
    ensures ExpansionFree(PromoCode)
  {
    assert PromoCode == ['S', 'A', 'V', 'E', '1', '0'];
  }

  /** An accepted input is the code, in any mix of cases, padded with whitespace. */
  lemma AcceptedIsPadded(input: string)
    requires PromoAccepted(input)
    ensures exists i :: PaddedCode(input, i)
  {
    var r := Trim(input);
    PromoCodeExpansionFree();
    UpperExpansionFree(r);
    var i :| 0 <= i <= |input| - |r| && input[i..i + |r|] == r
             && AllWhitespace(input[..i]) && AllWhitespace(input[i + |r|..]);
    assert PaddedCode(input, i);
  }

  /** The code, in any mix of cases, padded with whitespace is accepted. */
  lemma PaddedIsAccepted(input: string, i: int)
    requires PaddedCode(input, i)
    ensures PromoAccepted(input)
  {
    var c := input[i..i + |PromoCode|];
    var w1, w2 := input[..i], input[i + |PromoCode|..];
    PromoCodeExpansionFree();
    UpperExpansionFree(c);
    assert [Upper(c)[0]] == UpperChar(c[0]) && [Upper(c)[5]] == UpperChar(c[5]);
    UpperKeepsWhitespace(c[0]);
    UpperKeepsWhitespace(c[5]);
    assert input == w1 + c + w2;
    TrimPadded(w1, c, w2);
  }

  /** An input is accepted exactly when it is the code, in any mix of cases, padded
      with whitespace. */
  lemma PromoAcceptedIff(input: string)
    ensures PromoAccepted(input) <==> exists i :: PaddedCode(input, i)
  {
    if PromoAccepted(input) {
      AcceptedIsPadded(input);
    }
    if exists i :: PaddedCode(input, i) {
      var i :| PaddedCode(input, i);
      PaddedIsAccepted(input, i);
    }
  }

  /** Lower case and surrounding whitespace are accepted. */
  lemma PromoAcceptsPaddedLowerCase()
    ensures PromoAccepted("  save10\n")
  {
    assert PaddedCode("  save10\n", 2);
    PaddedIsAccepted("  save10\n", 2);
  }

  /** The long s (U+017F) upper-cases to `S`, so it is accepted in place of `s`. */
  lemma PromoAcceptsLongS()
    ensures PromoAccepted("\U{017F}ave10")
  {
    assert PaddedCode("\U{017F}ave10", 0);
    PaddedIsAccepted("\U{017F}ave10", 0);
  }

  /** Inner whitespace and extra characters are rejected. */
  lemma PromoRejectsNearMisses()
    ensures !PromoAccepted("SAVE 10")
    ensures !PromoAccepted("SAVE100")
    ensures !PromoAccepted("")
  {
    TrimPadded("", "SAVE 10", "");
    assert "SAVE 10" == "" + "SAVE 10" + "";
    TrimPadded("", "SAVE100", "");
    assert "SAVE100" == "" + "SAVE100" + "";
  }

  // ---------------------------------------------------------------- price summary

  /** A JavaScript number as far as the summary needs one: finite, or NaN (what
      arithmetic on `undefined` yields). */
  datatype Number = Finite(v: real) | NaN

  function Times(a: Number, k: real): (r: Number)
    ensures r.NaN? <==> a.NaN?
    ensures a.Finite? ==> r.v == a.v * k
  {
    match a
    case Finite(x) => Finite(x * k)
    case NaN => NaN
  }

  function Minus(a: Number, b: Number): (r: Number)
    ensures r.NaN? <==> a.NaN? || b.NaN?
    ensures r.Finite? ==> r.v == a.v - b.v
  {
    if a.Finite? && b.Finite? then Finite(a.v - b.v) else NaN
  }

  /** `bookingDetails.guests || 1`: an absent or zero guest count reads as one. */
  function GuestCount(details: Record): (g: real)
    requires "guests" in details ==> details["guests"].Num?
    ensures !Present(details, "guests") ==> g == 1.0
    ensures Present(details, "guests") ==> g == details["guests"].n
  {
    if Present(details, "guests") then details["guests"].n else 1.0
  }

  datatype Summary = Summary(base: Number, discount: Number, total: Number)

  /** The subtotal (price per guest times guests), the discount (a tenth of it when
      a code is applied), and what remains. */
  function Summarize(price: Number, guests: real, promoApplied: bool, promoCode: string): (s: Summary)
    ensures price.NaN? ==> s.base.NaN? && s.total.NaN?
    ensures price.Finite? ==> s.base == Finite(price.v * guests) && s.total.Finite? && s.discount.Finite?
    ensures !(promoApplied && promoCode != "") ==> s.discount == Finite(0.0) && s.total == s.base
  {
    var base := Times(price, guests);
    var discount := if promoApplied && promoCode != "" then Times(base, 1.0 / 10.0) else Finite(0.0);
    Summary(base, discount, Minus(base, discount))
  }

  /** With a finite price, the total is the subtotal with ten percent off exactly
      when a code is applied, and never exceeds a non-negative subtotal. */
  lemma SummaryTotal(price: real, guests: real, promoApplied: bool, promoCode: string)
    ensures var s := Summarize(Finite(price), guests, promoApplied, promoCode);
      && (promoApplied && promoCode != "" ==> s.total == Finite(s.base.v * 9.0 / 10.0))
      && (!(promoApplied && promoCode != "") ==> s.total == s.base)
      && s.total.v + s.discount.v == s.base.v
      && (s.base.v >= 0.0 ==> 0.0 <= s.discount.v && 0.0 <= s.total.v <= s.base.v)
  {
  }

  // ---------------------------------------------------------------- experience load

  /** The fields the summary and header read from what the page keeps as its
      experience. */
  datatype Shown = Shown(price: Option<real>, title: Option<string>)

  /** As written: the page keeps the whole response body `{ experience, date,
      timeslots }`, which has no `price` or `title` of its own. */
  function LoadAsWritten(resp: Availability.ExperienceResponse): (shown: Option<Shown>)
    ensures shown.Some? && shown.value.price.None? && shown.value.title.None?
  {
    Some(Shown(None, None))
  }

  /** Corrected: the page keeps `data.experience`, absent when no row has the id. */
  function LoadCorrected(resp: Availability.ExperienceResponse): (shown: Option<Shown>)
    ensures shown.Some? <==> resp.experience.Some?
    ensures shown.Some? ==> shown.value.price == Some(resp.experience.value.price)
    ensures shown.Some? ==> shown.value.title == Some(resp.experience.value.title)
  {
    match resp.experience
    case Some(e) => Some(Shown(Some(e.price), Some(e.title)))
    case None => None
  }

  /** `experience.price` used as a number. */
  function PriceOf(shown: Shown): (n: Number)
    ensures n.Finite? <==> shown.price.Some?
    ensures n.Finite? ==> n.v == shown.price.value
  {
    match shown.price
    case Some(x) => Finite(x)
    case None => NaN
  }

  /** The render guard: nothing is shown until the experience is loaded and the
      store holds a date and a timeslot id. */
  predicate Renders(shown: Option<Shown>, details: Record) {
    shown.Some? && Present(details, "date") && Present(details, "time_slot_id")
  }

  /** As written, the render guard passes whatever the response held, even with no
      experience in it, and the subtotal and the total shown are NaN. */
  lemma AsWrittenSummaryIsNaN(resp: Availability.ExperienceResponse, st: BookingStore.Store, p: Page)
    requires "guests" in st.bookingDetails ==> st.bookingDetails["guests"].Num?
    ensures var shown := LoadAsWritten(resp);
      var s := Summarize(PriceOf(shown.value), GuestCount(st.bookingDetails), p.promoApplied, st.promoCode);
      && (Renders(shown, st.bookingDetails)
          <==> Present(st.bookingDetails, "date") && Present(st.bookingDetails, "time_slot_id"))
      && s.base.NaN? && s.total.NaN?
  {
  }

  /** As written, a response whose experience is absent (an id with no row) still
      passes the render guard, so the form can be submitted; with the corrected load
      the page renders nothing. */
  lemma AsWrittenRendersWithoutExperience(resp: Availability.ExperienceResponse, details: Record)
    requires resp.experience.None?
    requires Present(details, "date") && Present(details, "time_slot_id")
    ensures Renders(LoadAsWritten(resp), details)
    ensures !Renders(LoadCorrected(resp), details)
  {
  }

  /** What the page holds as its experience: nothing until a response arrived, then
      the corrected load of it. */
  function Loaded(resp: Option<Availability.ExperienceResponse>): (shown: Option<Shown>)
    ensures shown.Some? <==> resp.Some? && resp.value.experience.Some?
    ensures shown.Some? ==> shown.value.price == Some(resp.value.experience.value.price)
  {
    match resp
    case Some(body) => LoadCorrected(body)
    case None => None
  }

  /** The summary panel of a rendered page, with the corrected load: the experience's
      price times the guest count, less the discount, all finite. */
  function PageSummary(p: Page, st: BookingStore.Store, resp: Option<Availability.ExperienceResponse>)
    : (s: Option<Summary>)
    requires "guests" in st.bookingDetails ==> st.bookingDetails["guests"].Num?
    ensures s.Some? <==> Renders(Loaded(resp), st.bookingDetails)
    ensures s.Some? ==>
      && s.value.base == Finite(resp.value.experience.value.price * GuestCount(st.bookingDetails))
      && s.value.total.Finite? && s.value.discount.Finite?
      && s.value.total.v + s.value.discount.v == s.value.base.v
  {
    if !Renders(Loaded(resp), st.bookingDetails) then None
    else
      var price := resp.value.experience.value.price;
      var guests := GuestCount(st.bookingDetails);
      assert PriceOf(Loaded(resp).value) == Finite(price);
      SummaryTotal(price, guests, p.promoApplied, st.promoCode);
      Some(Summarize(Finite(price), guests, p.promoApplied, st.promoCode))
  }

  // ---------------------------------------------------------------- submit

  /** `formValid`: name, email and phone are all filled in. */
  predicate FormValid(p: Page) {
    p.name != "" && p.email != "" && p.phone != ""
  }

  /** A page opened from the store has a valid form exactly when the store's customer
      details hold a non-empty name, email and phone. */
  lemma OpenFormValid(st: BookingStore.Store)
    ensures FormValid(Open(st)) <==>
      && StrField(st.userInfo, "name").Some? && StrField(st.userInfo, "name").value != ""
      && StrField(st.userInfo, "email").Some? && StrField(st.userInfo, "email").value != ""
      && StrField(st.userInfo, "phone").Some? && StrField(st.userInfo, "phone").value != ""
  {
  }

  // ---------------------------------------------------------------- browser validation

  /** A letter or digit of ASCII. */
  predicate IsLetDig(c: char) {
    ('a' <= c <= 'z') || ('A' <= c <= 'Z') || ('0' <= c <= '9')
  }

  /** A character allowed before the `@` of a valid e-mail address: a letter, a digit,
      a dot or one of the other `atext` characters of RFC 5322. */
  predicate IsLocalChar(c: char) {
    IsLetDig(c) || c in ".!#$%&'*+/=?^_`{|}~-"
  }

  /** A domain label: one to 63 letters, digits and hyphens, beginning and ending with
      a letter or digit (section 3.5 of RFC 1034). */
  predicate IsLabel(s: string) {
    && 1 <= |s| <= 63
    && IsLetDig(s[0]) && IsLetDig(s[|s| - 1])
    && forall i :: 0 <= i < |s| ==> IsLetDig(s[i]) || s[i] == '-'
  }

  /** Labels separated by single dots. */
  predicate IsDomain(s: string)
    decreases |s|
  {
    IsLabel(s) || exists j :: 0 < j < |s| && s[j] == '.' && IsLabel(s[..j]) && IsDomain(s[j + 1..])
  }

  predicate IsLocalPart(s: string) {
    s != [] && forall i :: 0 <= i < |s| ==> IsLocalChar(s[i])
  }

  /** The "valid e-mail address" of the HTML Standard (section 4.10.5.1.5), which an
      `<input type="email">` must hold before the browser submits its form. */
  predicate ValidEmail(s: string) {
    exists k :: 0 <= k < |s| && s[k] == '@' && IsLocalPart(s[..k]) && IsDomain(s[k + 1..])
  }

  /** A domain holds no `@`. */
  lemma {:induction false} DomainHasNoAt(s: string)
    requires IsDomain(s)
    ensures forall i :: 0 <= i < |s| ==> s[i] != '@'
    decreases |s|
  {
    if !IsLabel(s) {
      var j :| 0 < j < |s| && s[j] == '.' && IsLabel(s[..j]) && IsDomain(s[j + 1..]);
      DomainHasNoAt(s[j + 1..]);
      forall i | 0 <= i < |s|
        ensures s[i] != '@'
      {
        if i < j {
          assert s[i] == s[..j][i];
        } else if i > j {
          assert s[i] == s[j + 1..][i - j - 1];
        }
      }
    }
  }

  /** An address is split at its first `@`: the part before must be local characters
      and the part after a domain. */
  lemma ValidEmailAt(s: string, n: int)
    requires 0 <= n < |s| && s[n] == '@'
    requires forall i :: 0 <= i < n ==> s[i] != '@'
    ensures ValidEmail(s) <==> IsLocalPart(s[..n]) && IsDomain(s[n + 1..])
  {
    if ValidEmail(s) {
      var k :| 0 <= k < |s| && s[k] == '@' && IsLocalPart(s[..k]) && IsDomain(s[k + 1..]);
      assert forall m :: n < m <= |s| ==> s[..m][n] == '@';
      assert !IsLocalChar('@');
      assert k == n;
    }
  }

  /** An address splits at its one `@`: it is valid exactly when the part before is a
      non-empty run of local characters and the part after is a domain. */
  lemma ValidEmailSplit(local: string, domain: string)
    requires forall i :: 0 <= i < |local| ==> local[i] != '@'
    ensures ValidEmail(local + "@" + domain) <==> IsLocalPart(local) && IsDomain(domain)
  {
    var s := local + "@" + domain;
    var n := |local|;
    assert s[..n] == local && s[n + 1..] == domain;
    assert forall i :: 0 <= i < n ==> s[i] == local[i];
    ValidEmailAt(s, n);
  }

  /** A run of lower-case letters of label length is a label. */
  lemma WordIsLabel(w: string)
    requires 1 <= |w| <= 63 && forall i :: 0 <= i < |w| ==> 'a' <= w[i] <= 'z'
    ensures IsLabel(w) && IsLocalPart(w)
  {
  }

  /** A label, a dot and a domain make a domain. */
  lemma DomainCons(head: string, rest: string)
    requires IsLabel(head) && IsDomain(rest)
    ensures IsDomain(head + "." + rest)
  {
    var s := head + "." + rest;
    var j := |head|;
    assert s[..j] == head && s[j] == '.' && s[j + 1..] == rest;
  }

  /** An ordinary address is accepted. */
  lemma ValidEmailAccepts()
    ensures ValidEmail("ana@example.com")
  {
    WordIsLabel("ana");
    WordIsLabel("example");
    WordIsLabel("com");
    DomainCons("example", "com");
    ValidEmailSplit("ana", "example" + "." + "com");
    assert "ana@example.com" == "ana" + "@" + ("example" + "." + "com");
  }

  /** A text without `@`, and an address whose domain begins with a hyphen, are
      refused. */
  lemma ValidEmailRefuses()
    ensures !ValidEmail("x")
    ensures !ValidEmail("ana@-x.com")
  {
    assert "x"[0] == 'x';
    ValidEmailSplit("ana", "-x.com");
    assert "-x.com"[0] == '-';
    assert !IsDomain("-x.com") by {
      forall j | 0 < j < |"-x.com"|
        ensures !IsLabel("-x.com"[..j])
      {
        assert "-x.com"[..j][0] == '-';
      }
    }
    assert "ana@-x.com" == "ana" + "@" + "-x.com";
  }

  /** The browser's constraint validation of the form: the three `required` fields
      are non-empty and the e-mail field holds a valid address. */
  predicate BrowserAccepts(p: Page) {
    FormValid(p) && ValidEmail(p.email)
  }

  /** The body of `POST /api/bookings`: no `seats`, and the timeslot id sent as the
      time as well. */
  function BookingRequest(p: Page, details: Record, experienceId: string): (req: Reservation.Request)
    ensures req.experienceId == Some(experienceId)
    ensures req.timeslotId == StrField(details, "time_slot_id") == req.time
    ensures req.date == StrField(details, "date")
    ensures req.customerName == Some(p.name) && req.customerEmail == Some(p.email)
    ensures req.seats.None?
  {
    Reservation.Request(Some(experienceId), StrField(details, "time_slot_id"), StrField(details, "date"),
                        StrField(details, "time_slot_id"), Some(p.name), Some(p.email), None)
  }

  /** `handleSubmit`, reachable only from a rendered page with an enabled button (a
      valid form, no earlier submit in flight) whose fields pass the browser's
      validation: the customer's details are merged into the store and the request
      is sent. */
  function Submit(p: Page, st: BookingStore.Store, resp: Option<Availability.ExperienceResponse>,
                  experienceId: string)
    : (r: (BookingStore.Store, Option<Reservation.Request>))
    ensures r.1.Some? <==> Renders(Loaded(resp), st.bookingDetails) && BrowserAccepts(p) && !p.processing
    ensures r.1.None? ==> r.0 == st
    ensures r.1.Some? ==>
      && r.1.value == BookingRequest(p, st.bookingDetails, experienceId)
      && r.0.bookingDetails == st.bookingDetails && r.0.promoCode == st.promoCode
      && r.0.userInfo == st.userInfo["name" := Str(p.name)]["email" := Str(p.email)]["phone" := Str(p.phone)]
  {
    if !Renders(Loaded(resp), st.bookingDetails) || !BrowserAccepts(p) || p.processing then (st, None)
    else
      var info := map["name" := Str(p.name), "email" := Str(p.email), "phone" := Str(p.phone)];
      (BookingStore.SetUserInfo(st, info), Some(BookingRequest(p, st.bookingDetails, experienceId)))
  }

  /** Because the page never sends `seats`, no request it sends is ever booked, and
      the server's store is left as it was. */
  lemma CheckoutNeverBooks(db: Catalog.Db, p: Page, st: BookingStore.Store,
                           resp: Option<Availability.ExperienceResponse>,
                           experienceId: string, newId: string)
    requires Reservation.FreshBookingId(db, newId)
    ensures var (_, sent) := Submit(p, st, resp, experienceId);
      sent.Some? ==>
        && !Reservation.Reserve(db, sent.value, newId).1.Booked?
        && Reservation.Reserve(db, sent.value, newId).0 == db
  {
  }
}
