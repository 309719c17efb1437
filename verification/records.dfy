/** The stored records the booking handlers read and write, and the store that
    holds them. Timestamps, addresses' length limits and business hours are not
    modelled. */
module Records {
  import opened Wrappers

  /** A primary key. URL ids match `<int:...>`, which only admits digits. */
  type Id = nat

  /** The per-restaurant configuration: the smallest bookable party. */
  datatype Setting = Setting(minGuest: int)

  /** A restaurant; `setting` is the optional one-to-one `Setting` row. */
  datatype Restaurant = Restaurant(
    name: string,
    address1: string,
    address2: string,
    postcode: string,
    setting: Option<Setting>)

  /** A table, owned by one restaurant. Its capacity is not constrained. */
  datatype Table = Table(restaurant: Id, name: string, capacity: int)

  /** A booking; `totalGuests` is nullable in the schema. */
  datatype Booking = Booking(
    user: Id,
    restaurant: Id,
    table: Id,
    date: int,
    totalGuests: Option<int>)

  /** The rows of the three tables the handlers touch, and the next value of the
      bookings' primary-key sequence. */
  datatype Store = Store(
    restaurants: map<Id, Restaurant>,
    tables: map<Id, Table>,
    bookings: map<Id, Booking>,
    nextBookingId: Id)

  /** What the database guarantees: foreign keys point at existing rows and
      every booking key was drawn from the sequence. */
  ghost predicate WellFormed(s: Store) {
    && (forall t :: t in s.tables ==> s.tables[t].restaurant in s.restaurants)
    && (forall b :: b in s.bookings ==> b < s.nextBookingId)
    && (forall b :: b in s.bookings ==>
          s.bookings[b].restaurant in s.restaurants && s.bookings[b].table in s.tables)
  }

  /** Every booking's table belongs to the booking's restaurant. The schema does
      not enforce this; the booking form does. */
  ghost predicate TablesMatch(s: Store) {
    forall b :: b in s.bookings && s.bookings[b].table in s.tables ==>
      s.tables[s.bookings[b].table].restaurant == s.bookings[b].restaurant
  }
}
