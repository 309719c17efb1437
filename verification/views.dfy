/** The booking request handlers as transitions over the store. Each takes the
    request (who is logged in, the HTTP method, the submitted form) and the
    store, and returns the response together with the new store. Rendering,
    routing and flash delivery are reduced to a response tag, the page's key
    contents and the flash message text. */
module Views {
  import opened Wrappers
  import opened Records
  import opened BookingForm
  import Admission

  /** Only POST is told apart; every other method takes the GET branch. */
  datatype Method = Get | Post

  /** `user` is `None` for an anonymous request. */
  datatype Request = Request(user: Option<Id>, verb: Method, data: FormData)

  datatype Level = Info | Error

  /** A one-shot status message attached to the next response. */
  datatype Flash = Flash(level: Level, text: string)

  /** The rendered pages, by what they show. */
  datatype Page =
    | HomePage(restaurants: set<Id>)
    | BookPage(restaurant: Id, errors: FormErrors)
    | DeletePage(booking: Id)
    | UpdatePage(booking: Id)
    | MyBookingsPage(bookings: set<Id>)

  datatype Response =
    | RedirectLogin
    | RedirectHome(flash: Flash)
    | RedirectMyBookings(notice: Option<Flash>)
    | Render(page: Page)
    | NotFound
    | ServerError

  datatype Step = Step(response: Response, store: Store)

  /** The booking routes: `/`, `/book-restaurant/<id>`, `/my-bookings`,
      `/delete-booking/<id>` and `/update-booking/<id>`. */
  datatype Route =
    | Home
    | BookRestaurant(restaurant: Id)
    | MyBookings
    | DeleteBooking(booking: Id)
    | UpdateBooking(booking: Id)

  const NoErrors: FormErrors := FormErrors({}, None)

  /** `b` is a booking the booking form would accept in store `s` at time `now`:
      its restaurant has a setting, its table is one of that restaurant's, and
      its guest count and date pass the admission rule. */
  ghost predicate Admitted(s: Store, b: Booking, now: int) {
    && b.restaurant in s.restaurants
    && s.restaurants[b.restaurant].setting.Some?
    && b.table in s.tables
    && s.tables[b.table].restaurant == b.restaurant
    && b.totalGuests.Some?
    && Admission.Admissible(Some(s.tables[b.table].capacity),
                            s.restaurants[b.restaurant].setting.value.minGuest,
                            b.totalGuests, Some(b.date), now)
  }

  /** The keys of the bookings made by `user`. */
  function OwnedBy(bookings: map<Id, Booking>, user: Id): (r: set<Id>)
    ensures r <= bookings.Keys
  {
    set k | k in bookings && bookings[k].user == user
  }

  /** `home_page`: the list of all restaurants. */
  function HandleHome(req: Request, s: Store): (r: Step)
    ensures r.store == s
    ensures r.response == RedirectLogin <==> req.user.None?
    ensures req.user.Some? ==> r.response == Render(HomePage(s.restaurants.Keys))
  {
    if req.user.None? then Step(RedirectLogin, s)
    else Step(Render(HomePage(s.restaurants.Keys)), s)
  }

  /** `book_restaurant`: an unknown restaurant is reported and sends the user
      home; a GET shows the blank form; a valid POST stores a new booking for the
      requesting user at this restaurant; an invalid POST shows the errors. */
  function HandleBook(req: Request, s: Store, restaurant: Id, now: int): (r: Step)
    ensures r.store.restaurants == s.restaurants && r.store.tables == s.tables
    ensures r.response == RedirectLogin <==> req.user.None?
    ensures (r.response == RedirectHome(Flash(Error, "Invalid restaurant supplied")))
              <==> req.user.Some? && restaurant !in s.restaurants
    ensures r.store != s <==>
              && req.user.Some? && req.verb == Post && restaurant in s.restaurants
              && Validate(s.tables, restaurant, s.restaurants[restaurant], req.data, now).Valid?
    ensures r.store != s ==>
              && r.response == RedirectHome(Flash(Info, "You successfully booked " + s.restaurants[restaurant].name))
              && r.store.nextBookingId == s.nextBookingId + 1
              && s.nextBookingId in r.store.bookings
              && r.store.bookings == s.bookings[s.nextBookingId := r.store.bookings[s.nextBookingId]]
              && r.store.bookings[s.nextBookingId].user == req.user.value
              && r.store.bookings[s.nextBookingId].restaurant == restaurant
              && Admitted(s, r.store.bookings[s.nextBookingId], now)
              && r.store.bookings[s.nextBookingId]
                   == Booking(req.user.value, restaurant, req.data.table.value, req.data.date.value,
                              req.data.totalGuests)
    ensures req.user.Some? && restaurant in s.restaurants && req.verb == Get ==>
              r.response == Render(BookPage(restaurant, NoErrors))
    ensures req.user.Some? && restaurant in s.restaurants && req.verb == Post ==>
              match Validate(s.tables, restaurant, s.restaurants[restaurant], req.data, now)
              case Invalid(errors) => r.response == Render(BookPage(restaurant, errors))
              case Crash => r.response == ServerError
              case Valid(_, _, _) => r.response.RedirectHome?
  {
    if req.user.None? then Step(RedirectLogin, s)
    else if restaurant !in s.restaurants then
      Step(RedirectHome(Flash(Error, "Invalid restaurant supplied")), s)
    else
      var place := s.restaurants[restaurant];
      if req.verb == Post then
        match Validate(s.tables, restaurant, place, req.data, now)
        case Valid(table, date, guests) =>
          var booking := Booking(req.user.value, restaurant, table, date, Some(guests));
          Step(RedirectHome(Flash(Info, "You successfully booked " + place.name)),
               s.(bookings := s.bookings[s.nextBookingId := booking],
                  nextBookingId := s.nextBookingId + 1))
        case Invalid(errors) => Step(Render(BookPage(restaurant, errors)), s)
        case Crash => Step(ServerError, s)
      else Step(Render(BookPage(restaurant, NoErrors)), s)
  }

  /** `delete_booking`: any logged-in user may delete any existing booking with a
      POST; a GET shows the confirmation page. Ownership is not checked. */
  function HandleDelete(req: Request, s: Store, booking: Id): (r: Step)
    ensures r.store.restaurants == s.restaurants && r.store.tables == s.tables
    ensures r.store.nextBookingId == s.nextBookingId
    ensures r.response == RedirectLogin <==> req.user.None?
    ensures r.response == NotFound <==> req.user.Some? && booking !in s.bookings
    ensures (r.response == RedirectMyBookings(None))
              <==> req.user.Some? && req.verb == Post && booking in s.bookings
    ensures r.store.bookings.Keys
              == s.bookings.Keys - (if r.response.RedirectMyBookings? then {booking} else {})
    ensures forall k :: k in r.store.bookings ==> r.store.bookings[k] == s.bookings[k]
    ensures req.user.Some? && booking in s.bookings && req.verb == Get ==>
              r.response == Render(DeletePage(booking))
  {
    if req.user.None? then Step(RedirectLogin, s)
    else if booking !in s.bookings then Step(NotFound, s)
    else if req.verb == Post then
      Step(RedirectMyBookings(None), s.(bookings := s.bookings - {booking}))
    else Step(Render(DeletePage(booking)), s)
  }

  /** `update_booking`: a valid POST rewrites the table, date and guest count of
      the booking, validated against the booking's own restaurant. An invalid
      POST renders the unbound form built before the method check, so it shows
      the same page as a GET. Ownership is not checked. */
  function HandleUpdate(req: Request, s: Store, booking: Id, now: int): (r: Step)
    ensures r.store.restaurants == s.restaurants && r.store.tables == s.tables
    ensures r.store.nextBookingId == s.nextBookingId
    ensures r.store.bookings.Keys == s.bookings.Keys
    ensures forall k :: k in s.bookings && k != booking ==> r.store.bookings[k] == s.bookings[k]
    ensures r.response == RedirectLogin <==> req.user.None?
    ensures r.response == NotFound <==> req.user.Some? && booking !in s.bookings
    ensures r.response.RedirectMyBookings? <==>
              && req.user.Some? && req.verb == Post && booking in s.bookings
              && s.bookings[booking].restaurant in s.restaurants
              && Validate(s.tables, s.bookings[booking].restaurant,
                          s.restaurants[s.bookings[booking].restaurant], req.data, now).Valid?
    ensures !r.response.RedirectMyBookings? ==> r.store == s
    ensures r.response.RedirectMyBookings? ==>
              && r.store.bookings[booking].user == s.bookings[booking].user
              && r.store.bookings[booking].restaurant == s.bookings[booking].restaurant
              && Admitted(s, r.store.bookings[booking], now)
              && r.store.bookings[booking]
                   == s.bookings[booking].(table := req.data.table.value, date := req.data.date.value,
                                           totalGuests := req.data.totalGuests)
    ensures r.response.RedirectMyBookings? ==>
              r.response == RedirectMyBookings(Some(Flash(Info, "You successfully updated "
                + s.restaurants[s.bookings[booking].restaurant].name + " booking")))
    ensures req.user.Some? && booking in s.bookings && s.bookings[booking].restaurant !in s.restaurants ==>
              r.response == ServerError
    ensures req.user.Some? && req.verb == Post && booking in s.bookings
            && s.bookings[booking].restaurant in s.restaurants
            && Validate(s.tables, s.bookings[booking].restaurant,
                        s.restaurants[s.bookings[booking].restaurant], req.data, now).Crash? ==>
              r.response == ServerError
    ensures req.user.Some? && booking in s.bookings && s.bookings[booking].restaurant in s.restaurants
            && (req.verb == Get
                || Validate(s.tables, s.bookings[booking].restaurant,
                            s.restaurants[s.bookings[booking].restaurant], req.data, now).Invalid?) ==>
              r.response == Render(UpdatePage(booking))
  {
    if req.user.None? then Step(RedirectLogin, s)
    else if booking !in s.bookings then Step(NotFound, s)
    else
      var current := s.bookings[booking];
      if current.restaurant !in s.restaurants then Step(ServerError, s)
      else
        var place := s.restaurants[current.restaurant];
        if req.verb == Post then
          match Validate(s.tables, current.restaurant, place, req.data, now)
          case Valid(table, date, guests) =>
            var updated := current.(table := table, date := date, totalGuests := Some(guests));
            Step(RedirectMyBookings(Some(Flash(Info, "You successfully updated " + place.name + " booking"))),
                 s.(bookings := s.bookings[booking := updated]))
          case Invalid(_) => Step(Render(UpdatePage(booking)), s)
          case Crash => Step(ServerError, s)
        else Step(Render(UpdatePage(booking)), s)
  }

  /** `my_bookings`: the bookings of the requesting user. */
  function HandleMyBookings(req: Request, s: Store): (r: Step)
    ensures r.store == s
    ensures r.response == RedirectLogin <==> req.user.None?
    ensures req.user.Some? ==> r.response == Render(MyBookingsPage(OwnedBy(s.bookings, req.user.value)))
  {
    if req.user.None? then Step(RedirectLogin, s)
    else Step(Render(MyBookingsPage(OwnedBy(s.bookings, req.user.value))), s)
  }

  /** The URL dispatcher for the booking routes. */
  function Dispatch(route: Route, req: Request, s: Store, now: int): Step {
    match route
    case Home => HandleHome(req, s)
    case BookRestaurant(r) => HandleBook(req, s, r, now)
    case MyBookings => HandleMyBookings(req, s)
    case DeleteBooking(b) => HandleDelete(req, s, b)
    case UpdateBooking(b) => HandleUpdate(req, s, b, now)
  }
}
