/** Packaging rules applied when an order is accepted: each one is a weight
    bound and a price surcharge. Two revisions: the current `packaging`
    package of the app (Bag, Box, Film, WrapVariant), which hands the input
    back on error, and the older `BagVariant` / `BoxVariant`, which hand
    back the zero order. */
module Packaging {
  import opened Model

  /** The `(order, error)` pair an `Apply` returns. */
  datatype Applied = Applied(order: Order, err: Option<Error>)

  /** The kinds of packaging the order facade can look up by name. */
  datatype Packaging = Bag | Box | Film | Wrap

  const BagLimitKg: real := 10.0
  const BoxLimitKg: real := 30.0

  /** `after` is `before` with only the price changed, and the price is
      `before`'s plus `surcharge` in `int64` arithmetic. */
  ghost predicate Repriced(before: Order, after: Order, surcharge: int) {
    && after.(priceRub := before.priceRub) == before
    && after.priceRub == Wrap64(before.priceRub as int + surcharge)
  }

  /** Bag.Apply: refuses 10 kg and more, otherwise adds 5 to the price. */
  function BagApply(o: Order): (r: Applied)
    ensures r.err.Some? <==> o.weightKg >= BagLimitKg
    ensures r.err.Some? ==> r.order == o && r.err.value == Message("bag cannot handle more than 10 kg")
    ensures r.err.None? ==> Repriced(o, r.order, 5)
    ensures r.err.None? && o.priceRub as int <= MaxInt64 - 5 ==> r.order.priceRub as int == o.priceRub as int + 5
  {
    if o.weightKg >= 10.0 then Applied(o, Some(Message("bag cannot handle more than 10 kg")))
    else Applied(o.(priceRub := Wrap64(o.priceRub as int + 5)), None)
  }

  /** Box.Apply: refuses 30 kg and more, otherwise adds 20 to the price. */
  function BoxApply(o: Order): (r: Applied)
    ensures r.err.Some? <==> o.weightKg >= BoxLimitKg
    ensures r.err.Some? ==> r.order == o && r.err.value == Message("box cannot handle more than 30 kg")
    ensures r.err.None? ==> Repriced(o, r.order, 20)
    ensures r.err.None? && o.priceRub as int <= MaxInt64 - 20 ==> r.order.priceRub as int == o.priceRub as int + 20
  {
    if o.weightKg >= 30.0 then Applied(o, Some(Message("box cannot handle more than 30 kg")))
    else Applied(o.(priceRub := Wrap64(o.priceRub as int + 20)), None)
  }

  /** Film.Apply: no weight bound, adds 1 to the price. */
  function FilmApply(o: Order): (r: Applied)
    ensures r.err.None?
    ensures Repriced(o, r.order, 1)
    ensures o.priceRub as int < MaxInt64 ==> r.order.priceRub as int == o.priceRub as int + 1
  {
    Applied(o.(priceRub := Wrap64(o.priceRub as int + 1)), None)
  }

  /** WrapVariant.Apply: no weight bound, adds 1 to the price. */
  function WrapApply(o: Order): (r: Applied)
    ensures r.err.None?
    ensures Repriced(o, r.order, 1)
    ensures o.priceRub as int < MaxInt64 ==> r.order.priceRub as int == o.priceRub as int + 1
  {
    Applied(o.(priceRub := Wrap64(o.priceRub as int + 1)), None)
  }

  /** The price surcharge of each kind of packaging. */
  function Surcharge(p: Packaging): int {
    match p
    case Bag => 5
    case Box => 20
    case Film => 1
    case Wrap => 1
  }

  /** The error a packaging reports for an order it cannot hold. */
  function Refusal(p: Packaging): Error {
    if p == Box then Message("box cannot handle more than 30 kg")
    else Message("bag cannot handle more than 10 kg")
  }

  /** The `Apply` of the packaging found in the facade's lookup table. */
  function Apply(p: Packaging, o: Order): (r: Applied)
    ensures r.err.None? ==> Repriced(o, r.order, Surcharge(p))
    ensures r.err.Some? ==> r.order == o && r.err.value == Refusal(p)
    ensures r.err.Some? <==> (p == Bag && o.weightKg >= BagLimitKg) || (p == Box && o.weightKg >= BoxLimitKg)
  {
    match p
    case Bag => BagApply(o)
    case Box => BoxApply(o)
    case Film => FilmApply(o)
    case Wrap => WrapApply(o)
  }

  /** The older BagVariant.Apply: same bound and surcharge, but an
      overweight order comes back as the zero order. */
  function BagVariantApply(o: Order): (r: Applied)
    ensures r.err.Some? <==> o.weightKg >= BagLimitKg
    ensures r.err.Some? ==> r.order == ZeroOrder && r.err.value == Message("bag cannot handle more than 10 kg")
    ensures r.err.None? ==> Repriced(o, r.order, 5)
  {
    if o.weightKg >= 10.0 then Applied(ZeroOrder, Some(Message("bag cannot handle more than 10 kg")))
    else Applied(o.(priceRub := Wrap64(o.priceRub as int + 5)), None)
  }

  /** The older BoxVariant.Apply: the zero order on error. */
  function BoxVariantApply(o: Order): (r: Applied)
    ensures r.err.Some? <==> o.weightKg >= BoxLimitKg
    ensures r.err.Some? ==> r.order == ZeroOrder && r.err.value == Message("box cannot handle more than 30 kg")
    ensures r.err.None? ==> Repriced(o, r.order, 20)
  {
    if o.weightKg >= 30.0 then Applied(ZeroOrder, Some(Message("box cannot handle more than 30 kg")))
    else Applied(o.(priceRub := Wrap64(o.priceRub as int + 20)), None)
  }

  /** The two revisions agree whenever the packaging accepts the order and
      differ only in the order they hand back on refusal. */
  lemma RevisionsAgreeOnSuccess(o: Order)
    ensures BagApply(o).err.None? ==> BagVariantApply(o) == BagApply(o)
    ensures BoxApply(o).err.None? ==> BoxVariantApply(o) == BoxApply(o)
    ensures BagApply(o).err == BagVariantApply(o).err && BoxApply(o).err == BoxVariantApply(o).err
  {
  }
}
