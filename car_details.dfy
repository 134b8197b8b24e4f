/** actions/car-details.js: one car's page, with the caller's wishlist flag,
    the caller's latest live test drive of the car and the dealership's
    hours. */
module CarDetails {
  import opened Common
  import opened Store
  import opened Helper
  import opened CarListing
  import opened Settings

  /** The statuses counted as a live booking for the page. */
  predicate Live(s: BookingStatus) {
    s == PENDING || s == CONFIRMED || s == COMPLETED
  }

  predicate LiveBookingOf(b: Booking, userId: Id, carId: Id) {
    b.carId == carId && b.userId == userId && Live(b.status)
  }

  /** `testDriveBooking.findFirst` with `orderBy: { createdAt: 'desc' }`: a
      live booking of the user for the car that no other such booking is
      newer than (the first such in store order). */
  function LatestLive(bookings: seq<Booking>, userId: Id, carId: Id): (r: Option<Booking>)
    ensures r.Some? ==> r.value in bookings && LiveBookingOf(r.value, userId, carId)
    ensures r.Some? ==> forall b :: b in bookings && LiveBookingOf(b, userId, carId) ==> b.createdAt <= r.value.createdAt
    ensures r.None? <==> forall b :: b in bookings ==> !LiveBookingOf(b, userId, carId)
  {
    if bookings == [] then None
    else
      var rest := LatestLive(bookings[1..], userId, carId);
      assert forall b :: b in bookings ==> b == bookings[0] || b in bookings[1..];
      if !LiveBookingOf(bookings[0], userId, carId) then rest
      else if rest.Some? && rest.value.createdAt > bookings[0].createdAt then rest
      else Some(bookings[0])
  }

  /** `userTestDrive`: the booking's id, status and ISO date. */
  datatype UserTestDrive = UserTestDrive(id: Id, status: BookingStatus, bookingDate: Iso)

  /** A working hour with ISO timestamps. */
  datatype HourView = HourView(
    dealershipId: Id, dayOfWeek: DayOfWeek, openTime: string, closeTime: string,
    isOpen: bool, createdAt: Iso, updatedAt: Iso)

  datatype DealershipView = DealershipView(id: Id, createdAt: Iso, updatedAt: Iso, workingHours: seq<HourView>)

  function ViewOfHour(h: WorkingHour): HourView {
    HourView(h.dealershipId, h.dayOfWeek, h.openTime, h.closeTime, h.isOpen, Iso(h.createdAt), Iso(h.updatedAt))
  }

  /** The first dealership with all its hours in store order (`include:
      { workingHours: true }` gives no order). */
  function DealershipOf(dealerships: seq<Dealership>, hours: seq<WorkingHour>): (r: Option<DealershipView>)
    ensures r.None? <==> dealerships == []
    ensures r.Some? ==>
      && r.value.id == dealerships[0].id
      && |r.value.workingHours| == |HoursOf(hours, dealerships[0].id)|
      && forall k :: 0 <= k < |r.value.workingHours| ==>
           r.value.workingHours[k] == ViewOfHour(HoursOf(hours, dealerships[0].id)[k])
  {
    if dealerships == [] then None
    else
      var d := dealerships[0];
      var rows := HoursOf(hours, d.id);
      Some(DealershipView(d.id, Iso(d.createdAt), Iso(d.updatedAt),
        seq(|rows|, k requires 0 <= k < |rows| => ViewOfHour(rows[k]))))
  }

  /** What the page receives. */
  datatype Details = Details(car: CarView, userTestDrive: Option<UserTestDrive>, dealership: Option<DealershipView>)

  const DETAILS_ERROR := "Error fetching car details:"

  /** The `TypeError` from reading `dbUser.id` when there is no store user. */
  const NULL_ID := "Cannot read properties of null (reading 'id')"

  /** `getCarById(carId)`. An unknown car is reported; for a known car the
      booking lookup reads `dbUser.id` unguarded, so a caller without a store
      row (signed out or unknown) makes the action throw. */
  function GetCarById(db: Db, caller: Option<string>, carId: Id): (r: Reply<Details>)
    reads db
    ensures carId !in CarIds(db.cars) ==> r == Fail("Car not found")
    ensures carId in CarIds(db.cars) && db.CallerUser(caller).None? ==> r == Raise(DETAILS_ERROR + NULL_ID)
    ensures r.Ok? <==> carId in CarIds(db.cars) && db.CallerUser(caller).Some?
    ensures r.Ok? ==>
      var user := db.CallerUser(caller).value;
      && r.data.car.id == carId
      && (exists c :: c in db.cars && c.id == carId && r.data.car == Serialize(c, HasPair(db.saved, user.id, carId)))
      && (Truthy(r.data.car.wishlisted) <==> HasPair(db.saved, user.id, carId))
      && (r.data.userTestDrive.None? <==> forall b :: b in db.bookings ==> !LiveBookingOf(b, user.id, carId))
      && (r.data.dealership.None? <==> db.dealerships == [])
      && r.data.dealership == DealershipOf(db.dealerships, db.hours)
  {
    match CarById(db.cars, carId)
    case None => Fail("Car not found")
    case Some(car) =>
      match db.CallerUser(caller)
      case None => Raise(DETAILS_ERROR + NULL_ID)
      case Some(user) =>
        var wishlisted := HasPair(db.saved, user.id, carId);
        var drive := match LatestLive(db.bookings, user.id, carId)
          case None => None
          case Some(b) => Some(UserTestDrive(b.id, b.status, Iso(b.bookingDate)));
        Ok(Details(Serialize(car, wishlisted), drive, DealershipOf(db.dealerships, db.hours)))
  }

  /** The test drive shown is the caller's newest live booking of the car. */
  lemma ShownDriveIsNewestLive(db: Db, caller: Option<string>, carId: Id)
    requires GetCarById(db, caller, carId).Ok?
    requires GetCarById(db, caller, carId).data.userTestDrive.Some?
    ensures
      var user := db.CallerUser(caller).value;
      var t := GetCarById(db, caller, carId).data.userTestDrive.value;
      exists b :: b in db.bookings && LiveBookingOf(b, user.id, carId) && b.id == t.id && b.status == t.status
        && Iso(b.bookingDate) == t.bookingDate
        && forall o :: o in db.bookings && LiveBookingOf(o, user.id, carId) ==> o.createdAt <= b.createdAt
  {
    var user := db.CallerUser(caller).value;
    var b := LatestLive(db.bookings, user.id, carId).value;
    assert b in db.bookings;
  }
}
