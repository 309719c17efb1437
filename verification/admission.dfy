/** The booking-admission rule of `BookingForm.clean`: given the chosen table's
    capacity, the restaurant's `min_guest` setting, the optional guest count,
    the optional requested date and the current time, either accept or report
    exactly one field error. Dates are integers counting whole minutes, the
    precision at which the form parses them. `now` is the current instant
    rounded up to a whole minute (the ceiling; an exact minute is left as it
    is), so that for whole-minute dates
    `date < now` holds exactly when `clean`'s `date < timezone.now()` does. */
module Admission {
  import opened Wrappers
  import Decimal

  /** The fields of the booking form. */
  datatype FormField = Table | Date | TotalGuests

  /** The four errors `clean` can raise, each carrying what its message prints. */
  datatype RuleError =
    | OverCapacity(capacity: int)
    | NoGuests
    | BelowMinimum(minGuest: int)
    | PastDate
  {
    /** The form field the error is attached to. */
    function Field(): FormField {
      if PastDate? then Date else TotalGuests
    }

    /** The user-visible message text. The capacity and minimum messages end in
        the decimal text of their number, which reads back as that number. */
    function Message(): (m: string)
      ensures OverCapacity? ==>
                && |CapacityPrefix| < |m| && m[..|CapacityPrefix|] == CapacityPrefix
                && m[|CapacityPrefix|..] == Decimal.Show(capacity)
                && Decimal.Parse(m[|CapacityPrefix|..]) == Some(capacity)
      ensures BelowMinimum? ==>
                && |MinimumPrefix| < |m| && m[..|MinimumPrefix|] == MinimumPrefix
                && m[|MinimumPrefix|..] == Decimal.Show(minGuest)
                && Decimal.Parse(m[|MinimumPrefix|..]) == Some(minGuest)
      ensures NoGuests? ==> m == "Cannot book 0 or less guests"
      ensures PastDate? ==> m == "Date cannot be in the past"
    {
      match this
      case OverCapacity(c) =>
        Decimal.ParseShow(c);
        assert (CapacityPrefix + Decimal.Show(c))[|CapacityPrefix|..] == Decimal.Show(c);
        CapacityPrefix + Decimal.Show(c)
      case NoGuests => "Cannot book 0 or less guests"
      case BelowMinimum(n) =>
        Decimal.ParseShow(n);
        assert (MinimumPrefix + Decimal.Show(n))[|MinimumPrefix|..] == Decimal.Show(n);
        MinimumPrefix + Decimal.Show(n)
      case PastDate => "Date cannot be in the past"
    }
  }

  const CapacityPrefix := "Maximum table capacity is "
  const MinimumPrefix := "Minimum guest bookable is: "

  function Max(a: int, b: int): int {
    if a < b then b else a
  }

  /** The acceptance condition, stated independently of the rule order: a
      present guest count lies in [max(1, min_guest), capacity] and a present
      date is not before now. */
  ghost predicate Admissible(capacity: Option<int>, minGuest: int, guests: Option<int>,
                             date: Option<int>, now: int)
    requires guests.Some? ==> capacity.Some?
  {
    && (guests.Some? ==> Max(1, minGuest) <= guests.value <= capacity.value)
    && (date.Some? ==> now <= date.value)
  }

  /** Every rule that fails when each is read on its own, in the order
      `clean` checks them. A validator that collected all failures would report
      this whole sequence. */
  function Failures(capacity: Option<int>, minGuest: int, guests: Option<int>,
                    date: Option<int>, now: int): seq<RuleError>
    requires guests.Some? ==> capacity.Some?
  {
    (if guests.Some? && guests.value > capacity.value then [OverCapacity(capacity.value)] else [])
    + (if guests.Some? && guests.value < 1 then [NoGuests] else [])
    + (if guests.Some? && guests.value < minGuest then [BelowMinimum(minGuest)] else [])
    + (if date.Some? && date.value < now then [PastDate] else [])
  }

  /** `BookingForm.clean`. Each check raises, so the first failing rule is the
      only one reported. `clean` crashes when a guest count arrives without a
      valid table; that is this function's precondition. */
  function Clean(capacity: Option<int>, minGuest: int, guests: Option<int>,
                 date: Option<int>, now: int): (r: Option<RuleError>)
    requires guests.Some? ==> capacity.Some?
    ensures r.None? <==> Admissible(capacity, minGuest, guests, date, now)
    ensures r.None? <==> |Failures(capacity, minGuest, guests, date, now)| == 0
    ensures r.Some? ==> r.value == Failures(capacity, minGuest, guests, date, now)[0]
  {
    if guests.Some? then
      if guests.value > capacity.value then Some(OverCapacity(capacity.value))
      else if guests.value < 1 then Some(NoGuests)
      else if guests.value < minGuest then Some(BelowMinimum(minGuest))
      else CleanDate(date, now)
    else CleanDate(date, now)
  }

  /** The date rule alone, reached only once the guest count passed or was absent. */
  function CleanDate(date: Option<int>, now: int): (r: Option<RuleError>)
    ensures r.None? <==> (date.Some? ==> now <= date.value)
    ensures r.Some? ==> r.value == PastDate
  {
    if date.Some? && date.value < now then Some(PastDate) else None
  }

  /** Over capacity: the only error is on total_guests, naming the capacity. */
  lemma OverCapacityReported(capacity: int, minGuest: int, g: int, date: Option<int>, now: int)
    requires g > capacity
    ensures Clean(Some(capacity), minGuest, Some(g), date, now) == Some(OverCapacity(capacity))
    ensures OverCapacity(capacity).Field() == TotalGuests
    ensures OverCapacity(capacity).Message() == "Maximum table capacity is " + Decimal.Show(capacity)
  {
  }

  /** Within capacity but below one: the fixed message, even when min_guest would
      also fail. */
  lemma NoGuestsReported(capacity: int, minGuest: int, g: int, date: Option<int>, now: int)
    requires g <= capacity && g < 1
    ensures Clean(Some(capacity), minGuest, Some(g), date, now) == Some(NoGuests)
    ensures NoGuests.Field() == TotalGuests
    ensures NoGuests.Message() == "Cannot book 0 or less guests"
  {
  }

  /** Between one and capacity but below min_guest: the message names min_guest. */
  lemma BelowMinimumReported(capacity: int, minGuest: int, g: int, date: Option<int>, now: int)
    requires 1 <= g <= capacity && g < minGuest
    ensures Clean(Some(capacity), minGuest, Some(g), date, now) == Some(BelowMinimum(minGuest))
    ensures BelowMinimum(minGuest).Field() == TotalGuests
    ensures BelowMinimum(minGuest).Message() == "Minimum guest bookable is: " + Decimal.Show(minGuest)
  {
  }

  /** The range bounds are inclusive at both ends. */
  lemma BoundariesInclusive(capacity: int, minGuest: int, date: Option<int>, now: int)
    requires Max(1, minGuest) <= capacity
    requires date.Some? ==> now <= date.value
    ensures Clean(Some(capacity), minGuest, Some(capacity), date, now).None?
    ensures Clean(Some(capacity), minGuest, Some(Max(1, minGuest)), date, now).None?
  {
  }

  /** A date strictly before now is rejected; a date equal to now is accepted. */
  lemma PastDateReported(capacity: Option<int>, minGuest: int, guests: Option<int>, now: int)
    requires guests.Some? ==> capacity.Some?
    requires Clean(capacity, minGuest, guests, None, now).None?
    ensures Clean(capacity, minGuest, guests, Some(now - 1), now) == Some(PastDate)
    ensures Clean(capacity, minGuest, guests, Some(now), now).None?
    ensures PastDate.Field() == Date && PastDate.Message() == "Date cannot be in the past"
  {
  }

  /** A guest-count failure stops `clean` before the date is looked at: the
      outcome is the same whatever date was requested. */
  lemma GuestErrorSuppressesDateCheck(capacity: Option<int>, minGuest: int, guests: Option<int>,
                                      date1: Option<int>, date2: Option<int>, now: int)
    requires guests.Some? ==> capacity.Some?
    requires Clean(capacity, minGuest, guests, date1, now).Some?
    requires Clean(capacity, minGuest, guests, date1, now).value.Field() == TotalGuests
    ensures Clean(capacity, minGuest, guests, date2, now) == Clean(capacity, minGuest, guests, date1, now)
  {
  }

  /** The date error is reported only when the guest count passed or was absent,
      and only when a date was given. */
  lemma PastDateOnlyAfterGuestsPass(capacity: Option<int>, minGuest: int, guests: Option<int>,
                                    date: Option<int>, now: int)
    requires guests.Some? ==> capacity.Some?
    requires Clean(capacity, minGuest, guests, date, now) == Some(PastDate)
    ensures Admissible(capacity, minGuest, guests, None, now)
    ensures date.Some? && date.value < now
  {
  }

  /** A missing guest count skips every guest rule, and a missing date skips the
      date rule. */
  lemma MissingValuesSkipRules(capacity: Option<int>, minGuest: int, guests: Option<int>,
                               date: Option<int>, now: int)
    requires guests.Some? ==> capacity.Some?
    ensures guests.None? ==> Clean(capacity, minGuest, guests, date, now) == CleanDate(date, now)
    ensures date.None? ==> Clean(capacity, minGuest, guests, date, now) != Some(PastDate)
  {
  }

  /** Reporting only the first failure differs from collecting them all: an
      over-capacity booking in the past fails two rules, and only the capacity
      error is raised. */
  lemma FirstFailureOnly()
    ensures |Failures(Some(7), 3, Some(8), Some(0), 10)| == 2
    ensures Clean(Some(7), 3, Some(8), Some(0), 10) == Some(OverCapacity(7))
  {
  }

  /** The message text determines the error, so the user can tell every
      rejection, and every capacity or minimum, apart. */
  lemma MessageDeterminesError(e1: RuleError, e2: RuleError)
    requires e1.Message() == e2.Message()
    ensures e1 == e2
  {
  }

  /** The form tests' restaurant: capacity 7 and min_guest 3, with a future date. */
  lemma FormTestScenarios(now: int)
    ensures Clean(Some(7), 3, Some(8), Some(now + 1), now).value.Message() == "Maximum table capacity is 7"
    ensures Clean(Some(7), 3, Some(7), Some(now + 1), now).None?
    ensures Clean(Some(7), 3, Some(6), Some(now + 1), now).None?
    ensures Clean(Some(7), 3, Some(0), Some(now + 1), now).value.Message() == "Cannot book 0 or less guests"
    ensures Clean(Some(7), 3, Some(3), Some(now + 1), now).None?
    ensures Clean(Some(7), 3, Some(2), Some(now + 1), now).value.Message() == "Minimum guest bookable is: 3"
    ensures Clean(Some(7), 3, None, Some(now - 1), now).value.Message() == "Date cannot be in the past"
  {
    assert Decimal.Show(7) == "7";
    assert Decimal.Show(3) == "3";
  }
}
