/** lib/helper.js: the transport form of a car row. */
module Helper {
  import opened Common
  import opened Store

  /** The ISO-8601 text of an instant (`toISOString`). The text itself is not
      modelled; the wrapper keeps the instant it was made from. */
  datatype Iso = Iso(instant: int)

  /** The value put in the `wishlisted` property: the flag the caller passed,
      or a row index when `serializeCarData` is handed straight to `Array.map`,
      which passes each element's index as the second argument. */
  datatype Flag = Flag(on: bool) | Index(n: nat)

  /** How JavaScript reads the property in a condition. */
  predicate Truthy(f: Flag) {
    match f
    case Flag(b) => b
    case Index(n) => n != 0
  }

  /** A car as the actions return it: the row's fields, with a plain number for
      the price, ISO texts for the timestamps and the `wishlisted` flag. */
  datatype CarView = CarView(
    id: Id, make: string, model: string, year: int, price: real,
    mileage: int, color: string, fuelType: string, transmission: string,
    bodyType: string, seats: Option<int>, description: string,
    status: CarStatus, featured: bool, images: seq<string>,
    createdAt: Iso, updatedAt: Iso, wishlisted: Flag)

  /** The row a view was made from, taking its price as present. */
  function Restore(v: CarView): Car {
    Car(v.id, v.make, v.model, v.year, Some(v.price), v.mileage, v.color,
        v.fuelType, v.transmission, v.bodyType, v.seats, v.description,
        v.status, v.featured, v.images, v.createdAt.instant, v.updatedAt.instant)
  }

  /** `serializeCarData(car, wishlisted)`: every column is copied; a missing
      price becomes 0; the timestamps become ISO texts; the flag is attached. */
  function SerializeWith(car: Car, flag: Flag): (v: CarView)
    ensures v.price == if car.price.Some? then car.price.value else 0.0
    ensures v.wishlisted == flag
    ensures v.createdAt == Iso(car.createdAt) && v.updatedAt == Iso(car.updatedAt)
    ensures Restore(v) == car.(price := Some(v.price))
  {
    CarView(car.id, car.make, car.model, car.year,
            match car.price case Some(p) => p case None => 0.0,
            car.mileage, car.color, car.fuelType, car.transmission, car.bodyType,
            car.seats, car.description, car.status, car.featured, car.images,
            Iso(car.createdAt), Iso(car.updatedAt), flag)
  }

  function Serialize(car: Car, wishlisted: bool): (v: CarView)
    ensures v.price == if car.price.Some? then car.price.value else 0.0
    ensures v.wishlisted == Flag(wishlisted) && (Truthy(v.wishlisted) <==> wishlisted)
    ensures v.createdAt == Iso(car.createdAt) && v.updatedAt == Iso(car.updatedAt)
    ensures Restore(v) == car.(price := Some(v.price))
  {
    SerializeWith(car, Flag(wishlisted))
  }

  /** The default second argument: `serializeCarData(car)`. */
  function SerializeDefault(car: Car): (v: CarView)
    ensures v.wishlisted == Flag(false)
    ensures Restore(v) == car.(price := Some(v.price))
  {
    Serialize(car, false)
  }

  /** A car with a price is recovered exactly from its view: serialisation
      loses nothing but the flag it adds. */
  lemma SerializeRoundTrip(car: Car, wishlisted: bool)
    requires car.price.Some?
    ensures Restore(Serialize(car, wishlisted)) == car
  {
  }

  /** The one thing serialisation forgets: a car without a price and the same
      car priced at 0 give the same view. */
  lemma SerializeForgetsMissingPrice(car: Car, wishlisted: bool)
    requires car.price.None?
    ensures Serialize(car, wishlisted) == Serialize(car.(price := Some(0.0)), wishlisted)
  {
  }

  /** `cars.map(serializeCarData)` as it is written in actions/cars.js and
      actions/home.js: `map` hands each row's index to the `wishlisted`
      parameter. */
  function MapSerialize(cars: seq<Car>): (r: seq<CarView>)
    ensures |r| == |cars|
    ensures forall i :: 0 <= i < |r| ==> r[i] == SerializeWith(cars[i], Index(i))
  {
    seq(|cars|, i requires 0 <= i < |cars| => SerializeWith(cars[i], Index(i)))
  }

  /** What that mapping does: every row after the first reads as wishlisted,
      though no wishlist was consulted. */
  lemma MapSerializeFlagsLaterRows(cars: seq<Car>)
    ensures forall i :: 1 <= i < |cars| ==> Truthy(MapSerialize(cars)[i].wishlisted)
  {
  }

  /** `cars.map((car) => serializeCarData(car))`: each row with the default flag. */
  function SerializeAll(cars: seq<Car>): (r: seq<CarView>)
    ensures |r| == |cars|
    ensures forall i :: 0 <= i < |r| ==> r[i] == SerializeDefault(cars[i]) && !Truthy(r[i].wishlisted)
  {
    seq(|cars|, i requires 0 <= i < |cars| => SerializeDefault(cars[i]))
  }
}
