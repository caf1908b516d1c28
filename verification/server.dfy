/**
 * The state the request handlers of the hotel backend act on, and what they
 * answer. The MySQL tables and the upload directory are the two stores; every
 * call into MySQL, the filesystem or the crypto libraries is represented by an
 * outcome the caller supplies.
 */
module Server {
  import opened Options
  import opened Tables
  import Js

  /** A row of `images`: the stored file name, its category and a description. */
  datatype Image = Image(path: string, category: string, description: string)

  /** A row of `bookings`; `promoCode` is the stored 1 or 0. */
  datatype Booking = Booking(checkin: Js.Value, checkout: Js.Value, guests: real, promoCode: int)

  /** A row of `users`; `passwordHash` is what the hash function returned. */
  datatype User = User(username: string, passwordHash: string)

  /** The three tables and the set of file names in the upload directory. */
  datatype State = State(
    images: Table<Image>,
    blobs: set<string>,
    bookings: Table<Booking>,
    users: Table<User>)

  /** Whether a single MySQL query succeeded or reported an error. */
  datatype DbOutcome = DbOk | DbErr

  /** Whether `fs.unlink` would succeed on an existing file; a missing file
      always makes it fail. */
  datatype FsOutcome = FsOk | FsErr

  /** The claims a signed session token carries (the signature and the one-hour
      expiry are not modelled). */
  datatype Claims = Claims(id: nat, username: string)

  /** The JSON bodies the handlers send. */
  datatype Body =
    | Message(message: string)
    | Created(message: string, id: nat)
    | ImageList(rows: seq<Row<Image>>)
    | Registered(message: string, token: Claims, username: string)
    | LoggedIn(token: Claims, username: string)

  /** An HTTP reply, or a crash of the process (an error thrown inside a query
      callback, or an unhandled promise rejection), which sends nothing. */
  datatype Response = Reply(status: nat, body: Body) | Crash

  /** A handler's effect: the state after it and its response. */
  datatype Transition = Transition(next: State, response: Response)

  predicate HasStatus(r: Response, code: nat)
  {
    r.Reply? && r.status == code
  }

  /** Every table keeps its auto-increment discipline and `promo_code` only
      ever holds 1 or 0. */
  ghost predicate Valid(s: State)
  {
    && WellFormed(s.images)
    && WellFormed(s.bookings)
    && WellFormed(s.users)
    && forall i :: 0 <= i < |s.bookings.rows| ==> s.bookings.rows[i].data.promoCode in {0, 1}
  }

  /** Every image row names a file that is in the upload directory. */
  ghost predicate Consistent(s: State)
  {
    forall i :: 0 <= i < |s.images.rows| ==> s.images.rows[i].data.path in s.blobs
  }

}
