/** Shared vocabulary of the pick-up point system: identifiers, instants,
    the Order and PickUpPoint records, error values and the 64-bit integer
    arithmetic the Go code relies on. */
module Model {

  /** Order, customer and pick-up point identifiers (Go `uint64`; the code
      never does arithmetic on them). */
  type Id = nat

  /** An instant, in seconds; `time.Time` comparisons become `<` and `>`. */
  type Time = int

  const Second: int := 1
  const Day: int := 86400 * Second

  /** `GiveDate.AddDate(0, 0, 2)`: the customer return window. */
  const ReturnWindow: int := 2 * Day

  const MinInt64: int := -0x8000_0000_0000_0000
  const MaxInt64: int := 0x7fff_ffff_ffff_ffff

  /** Go `int64`. */
  newtype int64 = x: int | -0x8000_0000_0000_0000 <= x < 0x8000_0000_0000_0000

  /** Two's-complement wrap-around of a mathematical integer into `int64`,
      which is what Go's `+=` on an `int64` does. */
  function Wrap64(x: int): (r: int64)
    ensures MinInt64 <= x <= MaxInt64 ==> r as int == x
    ensures (r as int - x) % 0x1_0000_0000_0000_0000 == 0
  {
    ((x - MinInt64) % 0x1_0000_0000_0000_0000 + MinInt64) as int64
  }

  datatype Option<+T> = None | Some(value: T)

  /** The error values the code returns: `ValidationError{Err: msg}`, the
      sentinels `ErrIdAlreadyExists` / `ErrNoItemFound`, and plain
      `errors.New(msg)` values. */
  datatype Error =
    | Validation(msg: string)
    | IdAlreadyExists
    | NoItemFound
    | Message(msg: string)

  datatype Result<+T> = Ok(value: T) | Err(error: Error)

  /** How a revision reports a rejected request: the app's services return
      `ValidationError`, the first revision plain `errors.New` values. */
  datatype Dialect = Typed | Plain

  function Invalid(d: Dialect, msg: string): (e: Error)
    ensures d == Typed ==> e == Validation(msg)
    ensures d == Plain ==> e == Message(msg)
  {
    if d == Typed then Validation(msg) else Message(msg)
  }

  /** An order held at the pick-up point. */
  datatype Order = Order(
    id: Id,
    customerId: Id,
    keepDate: Time,
    addDate: Time,
    giveDate: Time,
    returnDate: Time,
    isGiven: bool,
    isReturned: bool,
    priceRub: int64,
    weightKg: real)

  /** Go's zero value `Order{}`. */
  const ZeroOrder: Order := Order(0, 0, 0, 0, 0, 0, false, false, 0, 0.0)

  datatype PickUpPoint = PickUpPoint(id: Id, name: string, address: string, contact: string)

  /** Every stored order sits under its own id, which is how every write of
      the repositories files it. */
  ghost predicate KeysMatchIds(m: map<Id, Order>) {
    forall k :: k in m ==> m[k].id == k
  }
}
