/** The client's booking-flow store: the selection made so far, the customer's
    details and the promo code, changed only through its setters. */
module BookingStore {
  import opened Js

  datatype Store = Store(bookingDetails: Record, userInfo: Record, promoCode: string)

  /** The store when the app starts, and after every reset. */
  const Initial: Store := Store(map[], map[], "")

  /** `setBookingDetails`: merge the given fields into the selection. */
  function SetBookingDetails(st: Store, details: Record): (r: Store)
    ensures r.userInfo == st.userInfo && r.promoCode == st.promoCode
    ensures r.bookingDetails.Keys == st.bookingDetails.Keys + details.Keys
    ensures forall k :: k in details ==> r.bookingDetails[k] == details[k]
    ensures forall k :: k in st.bookingDetails && k !in details ==> r.bookingDetails[k] == st.bookingDetails[k]
  {
    st.(bookingDetails := Spread(st.bookingDetails, details))
  }

  /** `setUserInfo`: merge the given fields into the customer's details. */
  function SetUserInfo(st: Store, info: Record): (r: Store)
    ensures r.bookingDetails == st.bookingDetails && r.promoCode == st.promoCode
    ensures r.userInfo.Keys == st.userInfo.Keys + info.Keys
    ensures forall k :: k in info ==> r.userInfo[k] == info[k]
    ensures forall k :: k in st.userInfo && k !in info ==> r.userInfo[k] == st.userInfo[k]
  {
    st.(userInfo := Spread(st.userInfo, info))
  }

  /** `setPromoCode`: replace the code and nothing else. */
  function SetPromoCode(st: Store, code: string): (r: Store)
    ensures r.promoCode == code
    ensures r.bookingDetails == st.bookingDetails && r.userInfo == st.userInfo
  {
    st.(promoCode := code)
  }

  /** `resetBooking`: forget the selection, the customer's details and the code. */
  function ResetBooking(st: Store): (r: Store)
    ensures r.bookingDetails == map[] && r.userInfo == map[] && r.promoCode == ""
  {
    Initial
  }

  /** Resetting twice is resetting once, and a reset store is the initial one. */
  lemma ResetIdempotent(st: Store)
    ensures ResetBooking(ResetBooking(st)) == ResetBooking(st) == Initial
  {
  }

  /** Merging the same fields twice is merging them once. */
  lemma SetBookingDetailsIdempotent(st: Store, details: Record)
    ensures SetBookingDetails(SetBookingDetails(st, details), details) == SetBookingDetails(st, details)
  {
    SpreadIdempotent(st.bookingDetails, details);
  }

  lemma SetUserInfoIdempotent(st: Store, info: Record)
    ensures SetUserInfo(SetUserInfo(st, info), info) == SetUserInfo(st, info)
  {
    SpreadIdempotent(st.userInfo, info);
  }

  /** Merges into the selection and into the customer's details commute: each
      setter writes only its own part of the store. */
  lemma SettersCommute(st: Store, details: Record, info: Record, code: string)
    ensures SetUserInfo(SetBookingDetails(st, details), info) == SetBookingDetails(SetUserInfo(st, info), details)
    ensures SetPromoCode(SetBookingDetails(st, details), code) == SetBookingDetails(SetPromoCode(st, code), details)
    ensures SetPromoCode(SetUserInfo(st, info), code) == SetUserInfo(SetPromoCode(st, code), info)
  {
  }

  /** What the server answered, or that the request never got an answer. `json`
      says whether the answer's body parses as JSON: `response.json()` runs before
      `response.ok` is looked at, so an unparsable body throws into the catch. */
  datatype Response = Unreachable | Replied(ok: bool, json: bool)

  /** The answer after which `submitBooking` resets the store: ok and parsable. */
  predicate Confirmed(response: Response) {
    response.Replied? && response.ok && response.json
  }

  /** The three fields `submitBooking` insists on before it sends anything. */
  predicate ReadyToSubmit(st: Store) {
    && Present(st.bookingDetails, "experience_id")
    && Present(st.userInfo, "email")
    && Present(st.userInfo, "name")
  }

  /** The body `{ ...bookingDetails, ...userInfo, promoCode }`. */
  function SubmitBody(st: Store): (body: Record)
    ensures body.Keys == st.bookingDetails.Keys + st.userInfo.Keys + {"promoCode"}
    ensures body["promoCode"] == Str(st.promoCode)
    ensures forall k :: k in st.userInfo && k != "promoCode" ==> body[k] == st.userInfo[k]
    ensures forall k :: (k in st.bookingDetails && k !in st.userInfo && k != "promoCode")
                        ==> body[k] == st.bookingDetails[k]
  {
    Spread(Spread(st.bookingDetails, st.userInfo), map["promoCode" := Str(st.promoCode)])
  }

  /** `submitBooking`: the body it sends (none when a required field is missing) and
      the store afterwards, which is reset only on an ok answer whose body parses. */
  function SubmitBooking(st: Store, response: Response): (r: (Store, Option<Record>))
    ensures r.1.None? <==> !ReadyToSubmit(st)
    ensures r.1.Some? ==> r.1.value == SubmitBody(st)
    ensures r.0 == Initial <==> (ReadyToSubmit(st) && Confirmed(response)) || st == Initial
    ensures r.0 != st ==> r.0 == Initial
  {
    if !ReadyToSubmit(st) then (st, None)
    else
      var sent := Some(SubmitBody(st));
      match response
      case Replied(true, true) => (ResetBooking(st), sent)
      case _ => (st, sent)
  }

  /** `validatePromo`: the body `{ code }` it would send, none for an empty code. It
      never changes the store. */
  function ValidatePromoBody(st: Store): (body: Option<Record>)
    ensures body.None? <==> st.promoCode == ""
    ensures body.Some? ==> body.value == map["code" := Str(st.promoCode)]
  {
    if st.promoCode == "" then None else Some(map["code" := Str(st.promoCode)])
  }

  /** `validatePromo` checks the very code `submitBooking` sends: it asks about a
      code exactly when the body's `promoCode` is non-empty, and a reset store asks
      about nothing. */
  lemma ValidatePromoMatchesSubmit(st: Store)
    ensures ValidatePromoBody(st).Some? ==> ValidatePromoBody(st).value["code"] == SubmitBody(st)["promoCode"]
    ensures ValidatePromoBody(st).None? <==> SubmitBody(st)["promoCode"] == Str("")
    ensures ValidatePromoBody(ResetBooking(st)).None?
  {
  }

  /** A store filled by the checkout flow: the selection, then the customer, then
      the code. An ok answer with a JSON body returns it to the initial store; an
      answer that is not ok, does not parse, or never arrives keeps it. */
  lemma SubmitAfterFill(eid: string, name: string, email: string, code: string)
    requires eid != "" && name != "" && email != ""
    ensures var st := SetPromoCode(
                        SetUserInfo(SetBookingDetails(Initial, map["experience_id" := Str(eid)]),
                                    map["name" := Str(name), "email" := Str(email)]),
                        code);
      && ReadyToSubmit(st)
      && SubmitBooking(st, Replied(true, true)).0 == Initial
      && SubmitBooking(st, Replied(true, false)).0 == st
      && SubmitBooking(st, Replied(false, true)).0 == st
      && SubmitBooking(st, Unreachable).0 == st
      && SubmitBooking(st, Replied(true, true)).1.value["experience_id"] == Str(eid)
  {
  }
}
