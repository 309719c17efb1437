/** `BookingForm` as a whole: the table choice narrowed to one restaurant's
    tables, the per-field cleaning Django performs before `clean`, and `clean`
    itself. The outcome is what `is_valid()` yields, or a crash where `clean`
    raises an uncaught exception. */
module BookingForm {
  import opened Wrappers
  import opened Records
  import opened Admission

  /** The submitted form, after each field's own parsing: `None` stands for a
      value that was missing or did not parse. */
  datatype FormData = FormData(table: Option<Id>, date: Option<int>, totalGuests: Option<int>)

  /** The errors a rejected form carries: the fields whose own cleaning failed
      (required, or not an available choice) and the one error `clean` raised. */
  datatype FormErrors = FormErrors(fields: set<FormField>, rule: Option<RuleError>)

  /** The result of validating a bound form. */
  datatype FormResult =
    | Valid(table: Id, date: int, totalGuests: int)
    | Invalid(errors: FormErrors)
    | Crash

  /** The table choices the form offers: the tables of `restaurant`. */
  function SelectableTables(tables: map<Id, Table>, restaurant: Id): (r: set<Id>)
    ensures r <= tables.Keys
    ensures forall t :: t in tables ==> (t in r <==> tables[t].restaurant == restaurant)
  {
    set t | t in tables && tables[t].restaurant == restaurant
  }

  /** The submitted table, if it is one of the available choices. */
  function CleanedTable(tables: map<Id, Table>, restaurant: Id, data: FormData): (r: Option<Id>)
    ensures r.Some? <==> data.table.Some? && data.table.value in tables
                         && tables[data.table.value].restaurant == restaurant
    ensures r.Some? ==> r == data.table
  {
    if data.table.Some? && data.table.value in SelectableTables(tables, restaurant) then data.table
    else None
  }

  /** `form.is_valid()` for a form bound to `restaurant` (whose key is
      `restaurantId`). `clean` reads the restaurant's setting unconditionally and
      the cleaned table's capacity whenever a guest count is present; either
      missing raises. */
  function Validate(tables: map<Id, Table>, restaurantId: Id, restaurant: Restaurant,
                    data: FormData, now: int): (r: FormResult)
    ensures r.Crash? <==> restaurant.setting.None?
                          || (data.totalGuests.Some? && CleanedTable(tables, restaurantId, data).None?)
    ensures r.Valid? <==>
              && restaurant.setting.Some?
              && data.table.Some? && data.date.Some? && data.totalGuests.Some?
              && data.table.value in tables
              && tables[data.table.value].restaurant == restaurantId
              && Admissible(Some(tables[data.table.value].capacity), restaurant.setting.value.minGuest,
                            data.totalGuests, data.date, now)
    ensures r.Valid? ==> data == FormData(Some(r.table), Some(r.date), Some(r.totalGuests))
    ensures r.Invalid? ==> r.errors.fields != {} || r.errors.rule.Some?
    ensures r.Invalid? ==>
              && (FormField.Table in r.errors.fields <==> CleanedTable(tables, restaurantId, data).None?)
              && (Date in r.errors.fields <==> data.date.None?)
              && (TotalGuests in r.errors.fields <==> data.totalGuests.None?)
    ensures r.Invalid? ==>
              var table := CleanedTable(tables, restaurantId, data);
              r.errors.rule == Clean(if table.Some? then Some(tables[table.value].capacity) else None,
                                     restaurant.setting.value.minGuest, data.totalGuests, data.date, now)
  {
    var table := CleanedTable(tables, restaurantId, data);
    if restaurant.setting.None? then Crash
    else if data.totalGuests.Some? && table.None? then Crash
    else
      var capacity := if table.Some? then Some(tables[table.value].capacity) else None;
      var rule := Clean(capacity, restaurant.setting.value.minGuest, data.totalGuests, data.date, now);
      var failed := (if table.None? then {FormField.Table} else {})
                    + (if data.date.None? then {Date} else {})
                    + (if data.totalGuests.None? then {TotalGuests} else {});
      if failed == {} && rule.None? then Valid(table.value, data.date.value, data.totalGuests.value)
      else Invalid(FormErrors(failed, rule))
  }

  /** Each table is offered by its own restaurant's form and by no other. */
  lemma SelectableTablesPartition(tables: map<Id, Table>, t: Id, r1: Id, r2: Id)
    requires t in tables
    ensures t in SelectableTables(tables, tables[t].restaurant)
    ensures t in SelectableTables(tables, r1) && t in SelectableTables(tables, r2) ==> r1 == r2
  {
  }
}
