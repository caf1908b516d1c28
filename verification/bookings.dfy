/** The `POST /bookings` handler on the `bookings` table. */
module Bookings {
  import opened Tables
  import opened Js
  import opened Server

  const InvalidDataMessage := "Invalid data"
  const DatabaseErrorMessage := "Database error"
  const BookingCreatedMessage := "Booking created successfully"

  /** The request check: both dates truthy, `guests` of type number and
      `promo_code` of type boolean. */
  predicate ValidBooking(checkin: Value, checkout: Value, guests: Value, promoCode: Value)
  {
    !(!Truthy(checkin) || !Truthy(checkout) || TypeOf(guests) != "number" || TypeOf(promoCode) != "boolean")
  }

  /** `POST /bookings`: validate, then insert with `promo_code` stored as 1 or 0. */
  function CreateBooking(s: State, checkin: Value, checkout: Value, guests: Value, promoCode: Value,
                         insert: DbOutcome): (r: Transition)
    ensures r.next.images == s.images && r.next.blobs == s.blobs && r.next.users == s.users
    ensures r.response == Reply(400, Message(InvalidDataMessage)) <==>
              !(Truthy(checkin) && Truthy(checkout) && guests.Num? && promoCode.Bool?)
    ensures r.response == Reply(500, Message(DatabaseErrorMessage)) <==>
              Truthy(checkin) && Truthy(checkout) && guests.Num? && promoCode.Bool? && insert.DbErr?
    ensures HasStatus(r.response, 201) <==>
              Truthy(checkin) && Truthy(checkout) && guests.Num? && promoCode.Bool? && insert.DbOk?
    ensures !HasStatus(r.response, 201) ==> r.next == s
    ensures HasStatus(r.response, 201) ==>
              && r.response.body == Created(BookingCreatedMessage, s.bookings.nextId)
              && (WellFormed(s.bookings) ==>
                    && Get(r.next.bookings, s.bookings.nextId).Some?
                    && var b := Get(r.next.bookings, s.bookings.nextId).value;
                       && b.checkin == checkin && b.checkout == checkout && Num(b.guests) == guests
                       && b.promoCode in {0, 1}
                       && (b.promoCode == 1 <==> Truthy(promoCode)))
    ensures forall k :: k != s.bookings.nextId ==> Get(r.next.bookings, k) == Get(s.bookings, k)
    ensures Valid(s) ==> Valid(r.next)
  {
    if !ValidBooking(checkin, checkout, guests, promoCode) then
      Transition(s, Reply(400, Message(InvalidDataMessage)))
    else
      match insert
      case DbErr => Transition(s, Reply(500, Message(DatabaseErrorMessage)))
      case DbOk =>
        var row := Booking(checkin, checkout, guests.n, if promoCode.b then 1 else 0);
        Transition(s.(bookings := Insert(s.bookings, row)),
                   Reply(201, Created(BookingCreatedMessage, s.bookings.nextId)))
  }

}
