/** The relational store behind the server actions (Prisma over PostgreSQL),
    held in memory: one sequence per table, in the order the store returns
    rows when no `orderBy` is given. The constraints of the schema that the
    actions rely on (unique keys, rows that reference other rows) form `Valid`. */
module Store {
  import opened Common

  type Id = string

  datatype Role = USER | ADMIN
  datatype CarStatus = AVAILABLE | UNAVAILABLE | SOLD
  datatype BookingStatus = PENDING | CONFIRMED | COMPLETED | CANCELLED | NO_SHOW
  datatype DayOfWeek = MONDAY | TUESDAY | WEDNESDAY | THURSDAY | FRIDAY | SATURDAY | SUNDAY

  /** Timestamps and calendar dates are instants on a common integer scale. */
  datatype User = User(
    id: Id, clerkUserId: string, email: string, name: Option<string>,
    imageUrl: Option<string>, phone: Option<string>, role: Role,
    createdAt: int, updatedAt: int)

  datatype Car = Car(
    id: Id, make: string, model: string, year: int, price: Option<real>,
    mileage: int, color: string, fuelType: string, transmission: string,
    bodyType: string, seats: Option<int>, description: string,
    status: CarStatus, featured: bool, images: seq<string>,
    createdAt: int, updatedAt: int)

  /** A wishlist entry, keyed by the (user, car) pair. */
  datatype SavedCar = SavedCar(userId: Id, carId: Id, savedAt: int)

  datatype Booking = Booking(
    id: Id, carId: Id, userId: Id, bookingDate: int,
    startTime: string, endTime: string, status: BookingStatus,
    notes: Option<string>, createdAt: int, updatedAt: int)

  datatype Dealership = Dealership(id: Id, createdAt: int, updatedAt: int)

  datatype WorkingHour = WorkingHour(
    dealershipId: Id, dayOfWeek: DayOfWeek, openTime: string,
    closeTime: string, isOpen: bool, createdAt: int, updatedAt: int)

  // ---------------------------------------------------------------------------
  // Keys and references
  // ---------------------------------------------------------------------------

  function UserIds(users: seq<User>): set<Id> { set u | u in users :: u.id }
  function CarIds(cars: seq<Car>): set<Id> { set c | c in cars :: c.id }
  function BookingIds(bookings: seq<Booking>): set<Id> { set b | b in bookings :: b.id }

  ghost predicate UsersKeyed(users: seq<User>) {
    forall i, j :: 0 <= i < j < |users| ==>
      users[i].id != users[j].id && users[i].clerkUserId != users[j].clerkUserId
  }

  ghost predicate CarsKeyed(cars: seq<Car>) {
    forall i, j :: 0 <= i < j < |cars| ==> cars[i].id != cars[j].id
  }

  ghost predicate BookingsKeyed(bookings: seq<Booking>) {
    forall i, j :: 0 <= i < j < |bookings| ==> bookings[i].id != bookings[j].id
  }

  /** `@@unique([userId, carId])` on the wishlist table. */
  ghost predicate SavedKeyed(saved: seq<SavedCar>) {
    forall i, j :: 0 <= i < j < |saved| ==>
      saved[i].userId != saved[j].userId || saved[i].carId != saved[j].carId
  }

  ghost predicate SavedRefs(saved: seq<SavedCar>, users: seq<User>, cars: seq<Car>) {
    forall s :: s in saved ==> s.userId in UserIds(users) && s.carId in CarIds(cars)
  }

  ghost predicate BookingRefs(bookings: seq<Booking>, users: seq<User>, cars: seq<Car>) {
    forall b :: b in bookings ==> b.userId in UserIds(users) && b.carId in CarIds(cars)
  }

  ghost predicate WellFormed(users: seq<User>, cars: seq<Car>, saved: seq<SavedCar>, bookings: seq<Booking>) {
    && UsersKeyed(users) && CarsKeyed(cars) && BookingsKeyed(bookings) && SavedKeyed(saved)
    && SavedRefs(saved, users, cars) && BookingRefs(bookings, users, cars)
  }

  // ---------------------------------------------------------------------------
  // findUnique / findFirst by key
  // ---------------------------------------------------------------------------

  function UserByClerk(users: seq<User>, clerk: string): (r: Option<User>)
    ensures r.Some? ==> r.value in users && r.value.clerkUserId == clerk
    ensures r.None? ==> forall u :: u in users ==> u.clerkUserId != clerk
  {
    if users == [] then None
    else if users[0].clerkUserId == clerk then Some(users[0])
    else UserByClerk(users[1..], clerk)
  }

  function UserById(users: seq<User>, id: Id): (r: Option<User>)
    ensures r.Some? ==> r.value in users && r.value.id == id
    ensures r.None? <==> id !in UserIds(users)
  {
    if users == [] then None
    else if users[0].id == id then Some(users[0])
    else UserById(users[1..], id)
  }

  function CarById(cars: seq<Car>, id: Id): (r: Option<Car>)
    ensures r.Some? ==> r.value in cars && r.value.id == id
    ensures r.None? <==> id !in CarIds(cars)
  {
    if cars == [] then None
    else if cars[0].id == id then Some(cars[0])
    else CarById(cars[1..], id)
  }

  function BookingById(bookings: seq<Booking>, id: Id): (r: Option<Booking>)
    ensures r.Some? ==> r.value in bookings && r.value.id == id
    ensures r.None? <==> id !in BookingIds(bookings)
  {
    if bookings == [] then None
    else if bookings[0].id == id then Some(bookings[0])
    else BookingById(bookings[1..], id)
  }

  /** The car a row points to by its `carId` (an `include: { car: true }`). */
  function CarOf(cars: seq<Car>, id: Id): (c: Car)
    requires id in CarIds(cars)
    ensures c in cars && c.id == id
  {
    CarById(cars, id).value
  }

  /** With unique car ids, the lookup finds the one row carrying the id. */
  lemma {:induction false} CarByIdFindsRow(cars: seq<Car>, c: Car)
    requires CarsKeyed(cars) && c in cars
    ensures CarById(cars, c.id) == Some(c)
  {
    if cars[0] != c {
      assert c in cars[1..];
      assert CarsKeyed(cars[1..]) by {
        forall i, j | 0 <= i < j < |cars[1..]| ensures cars[1..][i].id != cars[1..][j].id {
          assert cars[1..][i] == cars[i + 1] && cars[1..][j] == cars[j + 1];
        }
      }
      var k :| 0 <= k < |cars| && cars[k] == c;
      assert cars[0].id != c.id;
      CarByIdFindsRow(cars[1..], c);
    }
  }

  /** With unique booking ids, the lookup finds the one row carrying the id. */
  lemma {:induction false} BookingByIdFindsRow(bookings: seq<Booking>, b: Booking)
    requires BookingsKeyed(bookings) && b in bookings
    ensures BookingById(bookings, b.id) == Some(b)
  {
    if bookings[0] != b {
      assert b in bookings[1..];
      assert BookingsKeyed(bookings[1..]) by {
        forall i, j | 0 <= i < j < |bookings[1..]| ensures bookings[1..][i].id != bookings[1..][j].id {
          assert bookings[1..][i] == bookings[i + 1] && bookings[1..][j] == bookings[j + 1];
        }
      }
      var k :| 0 <= k < |bookings| && bookings[k] == b;
      assert bookings[0].id != b.id;
      BookingByIdFindsRow(bookings[1..], b);
    }
  }

  // ---------------------------------------------------------------------------
  // The store
  // ---------------------------------------------------------------------------

  class Db {
    var users: seq<User>
    var cars: seq<Car>
    var saved: seq<SavedCar>
    var bookings: seq<Booking>
    var dealerships: seq<Dealership>
    var hours: seq<WorkingHour>

    ghost predicate Valid()
      reads this
    {
      WellFormed(users, cars, saved, bookings)
    }

    constructor ()
      ensures Valid()
      ensures users == [] && cars == [] && saved == [] && bookings == []
      ensures dealerships == [] && hours == []
    {
      users, cars, saved, bookings := [], [], [], [];
      dealerships, hours := [], [];
    }

    /** `auth()` followed by `db.user.findUnique({ where: { clerkUserId } })`:
        the store row of the signed-in caller, if there is a caller and a row. */
    function CallerUser(caller: Option<string>): (r: Option<User>)
      reads this
      ensures r.Some? ==> caller.Some? && r.value in users && r.value.clerkUserId == caller.value
      ensures caller.Some? && r.None? ==> forall u :: u in users ==> u.clerkUserId != caller.value
    {
      match caller
      case None => None
      case Some(clerk) => UserByClerk(users, clerk)
    }
  }
}
