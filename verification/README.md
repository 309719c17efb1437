# Table booker: booking admission and booking handlers

A Dafny model of the booking core of a restaurant table-booking web
application. Users book a table at a restaurant, list their own bookings, and
update or delete bookings. The model covers two parts.

- **The booking form** (`app/table_booker/forms.py`). `BookingForm.clean`
  admits a booking or raises one field error. The checks run in a fixed order:
  the guest count against the table's capacity, then against one, then against
  the restaurant's `min_guest`, and last the date against the current time.
  The form also narrows the table choices to the tables of the form's
  restaurant.
- **The booking handlers** (`app/table_booker/views.py`). They are pure
  transitions over a store of restaurants, tables and bookings, all behind the
  login gate: `home_page`, `book_restaurant`, `update_booking`,
  `delete_booking` and `my_bookings`.

Modules:

- `Wrappers`: the `Option` type.
- `Decimal`: `str(int)` as the error messages print numbers, and its inverse.
- `Admission`: `BookingForm.clean` (`Clean`), its error type and messages, and
  an independent statement of what it accepts (`Admissible`).
- `Records`: the `Restaurant`, `Table`, `Booking` and `Setting` records, the
  store, and the store invariants.
- `BookingForm`: table narrowing, per-field cleaning and `is_valid()`
  (`Validate`).
- `Views`: the handlers and the route dispatcher.
- `ViewProperties`: properties that span handlers.

Modelling choices:

- Dates are integers counting whole minutes, the precision at which the form
  parses them (`forms.py:36`). The current time `now` is a parameter. It is
  the current instant rounded up to a whole minute (the ceiling; an exact
  minute is left as it is). `timezone.now()`
  carries seconds and microseconds, and for whole-minute dates `date < now`
  holds exactly when `date` is before that rounded-up minute. So a booking
  for the current minute is rejected unless the clock reads exactly hh:mm:00.
- Ids are natural numbers, because the URL converter `<int:...>` only accepts
  digits. A new booking's key comes from the store's `nextBookingId`, which
  stands for the database's primary-key sequence.
- `clean` raises on the first failing check. So at most one rule error is
  reported, and a guest-count error means the date is never checked. Reading
  the checks as independent would collect every failing rule instead;
  `Admission.Failures` is that reading, and `Admission.FirstFailureOnly` shows
  an input where it and `clean` differ.
- A missing `restaurant.setting`, or a guest count with no valid table, makes
  `clean` raise an uncaught exception. `Admission.Clean` takes both as
  preconditions. At the form level they become the `Crash` result, and at the
  handler level the `ServerError` response.
- `update_booking` renders the unbound form it built before checking the
  method (`views.py:72`). So an invalid update shows the same page as a GET,
  and the validation errors are not shown.
- `update_booking` and `delete_booking` only check that someone is logged in.
  They do not check that the booking belongs to that user. The model keeps
  this, and `ViewProperties.OwnershipNotChecked` states it.

## Model

| member | source | states |
|---|---|---|
| Admission.Clean | app/table_booker/forms.py:54-79 | Accepts exactly when a present guest count lies in [max(1, min_guest), capacity] and a present date is not before now. Otherwise it reports the first rule, in source order, that fails on its own. |
| Admission.RuleError.Message | app/table_booker/forms.py:64-79 | The capacity and minimum messages are their fixed prefix followed by the canonical decimal text of the capacity or minimum, which reads back as that number. The other two messages are "Cannot book 0 or less guests" and "Date cannot be in the past". |
| Admission.CleanDate | app/table_booker/forms.py:77-79 | The date check alone rejects exactly a present date strictly before now, with the past-date error. |
| Admission.OverCapacityReported | app/table_booker/forms.py:62-65 | A guest count above capacity gives only the total_guests error "Maximum table capacity is {capacity}", whatever min_guest and the date are. |
| Admission.NoGuestsReported | app/table_booker/forms.py:67-70 | A guest count within capacity but below 1 gives the total_guests error "Cannot book 0 or less guests", even when min_guest would also reject it. |
| Admission.BelowMinimumReported | app/table_booker/forms.py:72-75 | A guest count in [1, capacity] but below min_guest gives the total_guests error "Minimum guest bookable is: {min_guest}". |
| Admission.BoundariesInclusive | app/table_booker/forms.py:62-75 | A guest count equal to the capacity, or equal to max(1, min_guest), is accepted. |
| Admission.PastDateReported | app/table_booker/forms.py:77-79 | Given guests that pass, a date one unit before now is rejected on the date field with "Date cannot be in the past", and a date equal to now is accepted. |
| Admission.GuestErrorSuppressesDateCheck | app/table_booker/forms.py:61-79 | Once a guest-count rule fails, the result does not depend on the requested date. |
| Admission.PastDateOnlyAfterGuestsPass | app/table_booker/forms.py:61-79 | The date error is reported only when a date was given and the guest count passed or was absent. |
| Admission.MissingValuesSkipRules | app/table_booker/forms.py:61-77 | With no guest count only the date rule applies. With no date the date error never appears. |
| Admission.FirstFailureOnly | app/table_booker/forms.py:61-79 | An over-capacity booking in the past fails two rules, and only the capacity error is reported. |
| Admission.MessageDeterminesError | app/table_booker/forms.py:64-79 | Different errors, including capacity or minimum errors with different numbers, have different message texts. |
| Admission.FormTestScenarios | app/table_booker/tests.py:331-395 | For capacity 7 and min_guest 3: 8 gives "Maximum table capacity is 7"; 7, 6 and 3 are accepted; 0 gives "Cannot book 0 or less guests"; 2 gives "Minimum guest bookable is: 3"; a past date gives "Date cannot be in the past". |
| Decimal.Show | app/table_booker/forms.py:64-74 | The text printed for an integer, as `str(int)` writes it inside the messages: non-empty, starting with a minus sign exactly for negative numbers, and all digits otherwise. |
| Decimal.ParseShow | app/table_booker/forms.py:64 | The decimal text the messages print for an integer reads back as that integer. |
| Decimal.ShowCanonical | app/table_booker/forms.py:64-74 | The printed text has no leading zero: zero prints as "0", and any other number's first digit is not 0. |
| Decimal.ShowInjective | app/table_booker/forms.py:74 | Different integers print as different texts. |
| BookingForm.SelectableTables | app/table_booker/forms.py:45-47 | The table choices offered are exactly the existing tables whose restaurant is the form's restaurant. |
| BookingForm.CleanedTable | app/table_booker/forms.py:45-47 | A submitted table survives field cleaning exactly when it exists and belongs to the form's restaurant. |
| BookingForm.SelectableTablesPartition | app/table_booker/forms.py:45-47 | Each table is offered by its own restaurant's form and by no other restaurant's form. |
| BookingForm.Validate | app/table_booker/forms.py:43-79 | The form is valid exactly when the restaurant has a setting, all three fields are present, the table is one of the restaurant's tables, and the values are admissible. It crashes exactly when the setting is missing or a guest count arrives without a valid table. A rejected form flags the table field exactly when the table did not clean, and the date and guest fields exactly when missing. Its rule error is exactly what `clean` raises on the cleaned values. |
| Views.HandleHome | app/table_booker/views.py:11-16 | Anonymous users are redirected to login. Logged-in users get the list of all restaurants. The store never changes. |
| Views.HandleBook | app/table_booker/views.py:19-50 | An unknown restaurant gives "Invalid restaurant supplied" and a redirect home. The store changes exactly on a valid POST by a logged-in user. That POST adds one booking under the next key, holding the requester, the URL's restaurant and the submitted table, date and guest count, and the booking passes the admission rule. A GET renders the blank form, an invalid POST renders the form with its errors, and a crash gives a server error. |
| Views.HandleDelete | app/table_booker/views.py:53-63 | An unknown id gives NotFound. A POST by a logged-in user removes exactly that booking and redirects to my-bookings. Every other booking, and every restaurant and table, is unchanged. A GET by a logged-in user renders the confirmation page for that booking. |
| Views.HandleUpdate | app/table_booker/views.py:66-84 | An unknown id gives NotFound. The store changes only on a valid POST, and only that booking changes. The booking keeps its user and restaurant, takes the submitted table, date and guest count, and those pass the admission rule for its own restaurant. A success redirects to my-bookings with the flash "You successfully updated {restaurant name} booking". A GET or an invalid POST renders the update page. A POST on which `clean` crashes, or a dangling restaurant key, gives a server error. |
| Views.HandleMyBookings | app/table_booker/views.py:87-92 | Logged-in users get exactly the bookings whose user is the requester. The store never changes. |
| ViewProperties.AuthGate | app/table_booker/views.py:12-89 | On every booking route, a request is redirected to login exactly when it is anonymous, and then the store is unchanged. |
| ViewProperties.GetIsReadOnly | app/table_booker/views.py:32-84 | A GET never changes the store, on any route. |
| ViewProperties.OnlyAdmittedBookingsEnter | app/table_booker/views.py:32-82 | Any booking that is new or changed after a request came from a logged-in POST, and passes the booking form against the earlier store. |
| ViewProperties.BookAddsExactlyOne | app/table_booker/views.py:36-39 | On a well-formed store, a successful booking adds exactly one booking under a fresh key and keeps all the others. |
| ViewProperties.PreservesInvariants | app/table_booker/models.py:17-35 | Every handler keeps the foreign keys pointing at existing rows, keeps booking keys below the sequence, and keeps each booking's table inside the booking's restaurant. |
| ViewProperties.InvalidUpdateShowsUnboundForm | app/table_booker/views.py:72-84 | An invalid update POST returns the same response as a GET of that booking, and no errors are shown. |
| ViewProperties.OwnershipNotChecked | app/table_booker/views.py:53-82 | A logged-in user can delete, or validly update, a booking that belongs to another user. |
| ViewProperties.MyBookingsPartition | app/table_booker/views.py:91 | Two different users' booking lists never overlap, and each booking appears in its own user's list. |

## Left out

- Login, signup and logout (`views.py:95-132`, `forms.py:10-31`). These rely on the framework's authentication, password hashing and sessions. A request carries only the logged-in user's id, or none.
- Template rendering, flash delivery and URL routing. A response keeps only its kind, the key contents of the page, and the message text.
- Django's built-in field error texts ("This field is required." and the invalid-choice text). A rejected form keeps only the set of fields whose cleaning failed.
- Datetime parsing with `%Y-%m-%dT%H:%M`, and time zones. Dates are integers, and `now` is a parameter.
- Parsing of the guest count and table id from text. A value that is missing or does not parse is `None`.
- The model-level range validators Django applies to integer columns when a model form is cleaned. They reject guest counts outside the database's integer range. Guest counts are unbounded here.
- `BusinessHour`, `DAYS_OF_WEEK`, timestamps and cascade deletes (`models.py:40-58`). No booking logic uses them, and deleting a booking cascades to nothing.
- The admin configuration and the test factories.
- Booking ids are drawn from a counter in the store rather than from a real database sequence.
- Concurrent requests are not modelled. Each handler call is one step over the store, and each performs at most one write.
