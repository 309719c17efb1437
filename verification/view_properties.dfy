/** Properties of the booking handlers taken together: the login gate, GET
    requests being read-only, the booking form as the only way a booking enters
    or changes, and the store invariants every handler keeps. */
module ViewProperties {
  import opened Wrappers
  import opened Records
  import opened BookingForm
  import opened Views

  /** Every booking route sends an anonymous request to the login page and
      leaves the store alone; no logged-in request is sent there. */
  lemma AuthGate(route: Route, req: Request, s: Store, now: int)
    ensures Dispatch(route, req, s, now).response == RedirectLogin <==> req.user.None?
    ensures req.user.None? ==> Dispatch(route, req, s, now).store == s
  {
  }

  /** A GET never changes the store, on any route. */
  lemma GetIsReadOnly(route: Route, req: Request, s: Store, now: int)
    requires req.verb == Get
    ensures Dispatch(route, req, s, now).store == s
  {
  }

  /** The booking form is the only way in: a booking that is new or changed
      after any request was submitted by a logged-in user with a POST and passes
      the admission rule against the store as it was. */
  lemma OnlyAdmittedBookingsEnter(route: Route, req: Request, s: Store, now: int)
    ensures var s' := Dispatch(route, req, s, now).store;
            forall k :: k in s'.bookings && (k !in s.bookings || s'.bookings[k] != s.bookings[k]) ==>
              req.user.Some? && req.verb == Post && Admitted(s, s'.bookings[k], now)
  {
  }

  /** On a well-formed store, a successful booking adds exactly one booking under
      a fresh key and keeps every other booking. */
  lemma BookAddsExactlyOne(req: Request, s: Store, restaurant: Id, now: int)
    requires WellFormed(s)
    requires HandleBook(req, s, restaurant, now).store != s
    ensures var s' := HandleBook(req, s, restaurant, now).store;
            && s.nextBookingId !in s.bookings
            && s'.bookings.Keys == s.bookings.Keys + {s.nextBookingId}
            && |s'.bookings| == |s.bookings| + 1
            && forall k :: k in s.bookings ==> s'.bookings[k] == s.bookings[k]
  {
  }

  /** Every handler keeps the database's referential integrity, and keeps each
      booking's table inside its restaurant. */
  lemma PreservesInvariants(route: Route, req: Request, s: Store, now: int)
    requires WellFormed(s)
    ensures WellFormed(Dispatch(route, req, s, now).store)
    ensures TablesMatch(s) ==> TablesMatch(Dispatch(route, req, s, now).store)
  {
  }

  /** An invalid update is invisible to the user: it shows exactly what a GET of
      the same booking shows, without the validation errors. */
  lemma InvalidUpdateShowsUnboundForm(req: Request, s: Store, booking: Id, now: int)
    requires req.user.Some? && req.verb == Post && booking in s.bookings
    requires s.bookings[booking].restaurant in s.restaurants
    requires Validate(s.tables, s.bookings[booking].restaurant,
                      s.restaurants[s.bookings[booking].restaurant], req.data, now).Invalid?
    ensures HandleUpdate(req, s, booking, now) == HandleUpdate(req.(verb := Get), s, booking, now)
    ensures HandleUpdate(req, s, booking, now).response == Render(UpdatePage(booking))
  {
  }

  /** Delete and update check only that someone is logged in: a user can delete
      or rewrite a booking that belongs to someone else. */
  lemma OwnershipNotChecked(user: Id, s: Store, booking: Id, data: FormData, now: int)
    requires booking in s.bookings && s.bookings[booking].user != user
    ensures HandleDelete(Request(Some(user), Post, data), s, booking).store.bookings
              == s.bookings - {booking}
    ensures var b := s.bookings[booking];
            b.restaurant in s.restaurants
            && Validate(s.tables, b.restaurant, s.restaurants[b.restaurant], data, now).Valid? ==>
              HandleUpdate(Request(Some(user), Post, data), s, booking, now).response.RedirectMyBookings?
  {
  }

  /** The my-bookings page lists every booking of the requester and none of
      anyone else's: the lists of two different users never overlap, and each
      booking appears in its own user's list. */
  lemma MyBookingsPartition(s: Store, u1: Id, u2: Id, data: FormData)
    ensures HandleMyBookings(Request(Some(u1), Get, data), s).response.page.bookings
              == OwnedBy(s.bookings, u1)
    ensures u1 != u2 ==> OwnedBy(s.bookings, u1) !! OwnedBy(s.bookings, u2)
    ensures forall k :: k in s.bookings ==> k in OwnedBy(s.bookings, s.bookings[k].user)
  {
  }
}
