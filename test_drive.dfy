/** actions/test-drive.js: booking, listing and cancelling test drives. Errors
    thrown inside each action are caught by the action itself and returned as
    `{ success: false, error }`, so every refusal here is a `Fail`. */
module TestDrive {
  import opened Common
  import opened Sorting
  import opened Store
  import opened Helper

  const LOGIN_REQUIRED := "You must be logged in to book a test drive"
  const USER_MISSING := "User not found in database"
  const CAR_UNAVAILABLE := "Car not available for test drive"
  const SLOT_BOOKED := "This time slot is already booked. Please select another time."

  /** The argument of `bookTestDrive`. The calendar date is already an instant
      (`new Date(bookingDate)`); `notes` is absent when the caller left it out. */
  datatype BookingRequest = BookingRequest(
    carId: Id, bookingDate: int, startTime: string, endTime: string, notes: Option<string>)

  /** A booking that holds its slot: `status: { in: ['PENDING', 'CONFIRMED'] }`. */
  predicate Holds(b: Booking) {
    b.status == PENDING || b.status == CONFIRMED
  }

  /** Two bookings are for the same car, day and start time. */
  predicate SameSlot(a: Booking, b: Booking) {
    a.carId == b.carId && a.bookingDate == b.bookingDate && a.startTime == b.startTime
  }

  /** The `findFirst` that looks for a booking already holding the requested slot. */
  predicate SlotTaken(bookings: seq<Booking>, req: BookingRequest) {
    exists b :: b in bookings && Holds(b) && b.carId == req.carId
      && b.bookingDate == req.bookingDate && b.startTime == req.startTime
  }

  /** No two bookings hold the same slot. */
  ghost predicate SlotsExclusive(bookings: seq<Booking>) {
    forall i, j :: 0 <= i < j < |bookings| && Holds(bookings[i]) && Holds(bookings[j]) ==>
      !SameSlot(bookings[i], bookings[j])
  }

  /** `findUnique({ where: { id: carId, status: 'AVAILABLE' } })`. */
  function AvailableCar(cars: seq<Car>, id: Id): (r: Option<Car>)
    ensures r.Some? ==> r.value in cars && r.value.id == id && r.value.status == AVAILABLE
    ensures r.None? && CarsKeyed(cars) ==> forall c :: c in cars && c.id == id ==> c.status != AVAILABLE
  {
    match CarById(cars, id)
    case None => None
    case Some(c) =>
      if c.status == AVAILABLE then Some(c)
      else
        assert CarsKeyed(cars) ==> forall d :: d in cars && d.id == id ==> d == c by {
          if CarsKeyed(cars) {
            forall d | d in cars && d.id == id ensures d == c {
              CarByIdFindsRow(cars, d);
            }
          }
        }
        None
  }

  /** `notes || null`: an empty note is stored as no note. */
  function StoredNotes(notes: Option<string>): (r: Option<string>)
    ensures r.Some? <==> notes.Some? && notes.value != ""
    ensures r.Some? ==> r == notes
  {
    match notes
    case Some(n) => if n == "" then None else notes
    case None => None
  }

  /** The row `bookTestDrive` creates. */
  function NewBooking(id: Id, userId: Id, req: BookingRequest, now: int): Booking {
    Booking(id, req.carId, userId, req.bookingDate, req.startTime, req.endTime,
            PENDING, StoredNotes(req.notes), now, now)
  }

  /** The checks of `bookTestDrive` in order, given the caller's store row:
      signed in, known to the store, car available, slot free. */
  function BookingRefusal(caller: Option<string>, user: Option<User>, cars: seq<Car>,
                          bookings: seq<Booking>, req: BookingRequest): (e: Option<string>)
    ensures e.None? <==>
      caller.Some? && user.Some? && AvailableCar(cars, req.carId).Some? && !SlotTaken(bookings, req)
    ensures e == Some(SLOT_BOOKED) <==>
      caller.Some? && user.Some? && AvailableCar(cars, req.carId).Some? && SlotTaken(bookings, req)
  {
    if caller.None? then Some(LOGIN_REQUIRED)
    else if user.None? then Some(USER_MISSING)
    else if AvailableCar(cars, req.carId).None? then Some(CAR_UNAVAILABLE)
    else if SlotTaken(bookings, req) then Some(SLOT_BOOKED)
    else None
  }

  /** Once a request has been booked, the same request is refused: the new
      booking holds the slot. */
  lemma RebookingRefused(caller: Option<string>, user: Option<User>, cars: seq<Car>,
                         bookings: seq<Booking>, req: BookingRequest, id: Id, now: int)
    requires BookingRefusal(caller, user, cars, bookings, req).None?
    ensures BookingRefusal(caller, user, cars, bookings + [NewBooking(id, user.value.id, req, now)], req)
      == Some(SLOT_BOOKED)
  {
    var b := NewBooking(id, user.value.id, req, now);
    assert b in bookings + [b];
  }

  /** A booking admitted by the slot check keeps held slots exclusive. */
  lemma BookingKeepsSlotsExclusive(bookings: seq<Booking>, req: BookingRequest, id: Id, userId: Id, now: int)
    requires SlotsExclusive(bookings)
    requires !SlotTaken(bookings, req)
    ensures SlotsExclusive(bookings + [NewBooking(id, userId, req, now)])
  {
    var b := NewBooking(id, userId, req, now);
    var r := bookings + [b];
    forall i, j | 0 <= i < j < |r| && Holds(r[i]) && Holds(r[j]) ensures !SameSlot(r[i], r[j]) {
      if j == |bookings| {
        assert r[i] in bookings;
      } else {
        assert r[i] == bookings[i] && r[j] == bookings[j];
      }
    }
  }

  /** `bookTestDrive`: appends one PENDING booking for the caller when every
      check passes, and changes nothing otherwise. `id` and `now` are the key
      and the timestamps the store assigns to the new row. */
  method BookTestDrive(db: Db, caller: Option<string>, req: BookingRequest, id: Id, now: int)
    returns (r: Reply<Booking>)
    requires db.Valid()
    requires id !in BookingIds(db.bookings)
    modifies db
    ensures db.Valid()
    ensures db.users == old(db.users) && db.cars == old(db.cars) && db.saved == old(db.saved)
    ensures db.dealerships == old(db.dealerships) && db.hours == old(db.hours)
    ensures var e := BookingRefusal(caller, old(db.CallerUser(caller)), old(db.cars), old(db.bookings), req);
      && (e.Some? ==> r == Fail(e.value) && db.bookings == old(db.bookings))
      && (e.None? ==>
            && r == Ok(NewBooking(id, old(db.CallerUser(caller)).value.id, req, now))
            && db.bookings == old(db.bookings) + [r.data])
  {
    if caller.None? {
      return Fail(LOGIN_REQUIRED);
    }
    var user := db.CallerUser(caller);
    if user.None? {
      return Fail(USER_MISSING);
    }
    var car := AvailableCar(db.cars, req.carId);
    if car.None? {
      return Fail(CAR_UNAVAILABLE);
    }
    if SlotTaken(db.bookings, req) {
      return Fail(SLOT_BOOKED);
    }
    var booking := NewBooking(id, user.value.id, req, now);
    assert booking.userId in UserIds(db.users) && booking.carId in CarIds(db.cars);
    db.bookings := db.bookings + [booking];
    r := Ok(booking);
    assert BookingsKeyed(db.bookings) by {
      forall i, j | 0 <= i < j < |db.bookings| ensures db.bookings[i].id != db.bookings[j].id {
        if j == |old(db.bookings)| {
          assert db.bookings[i] in old(db.bookings);
        }
      }
    }
  }

  // ---------------------------------------------------------------------------
  // getUserTestDrive
  // ---------------------------------------------------------------------------

  /** A booking as the reservations page receives it. */
  datatype BookingView = BookingView(
    id: Id, carId: Id, car: CarView, bookingDate: Iso, startTime: string,
    endTime: string, status: BookingStatus, notes: Option<string>,
    createdAt: Iso, updatedAt: Iso)

  function ViewOfBooking(b: Booking, car: Car): (v: BookingView)
    ensures v.id == b.id && v.carId == b.carId && v.status == b.status && v.notes == b.notes
    ensures v.car == Serialize(car, false)
    ensures v.bookingDate == Iso(b.bookingDate)
  {
    BookingView(b.id, b.carId, SerializeDefault(car), Iso(b.bookingDate), b.startTime,
                b.endTime, b.status, b.notes, Iso(b.createdAt), Iso(b.updatedAt))
  }

  /** The bookings of one user, in store order. */
  function BookingsOf(bookings: seq<Booking>, userId: Id): (r: seq<Booking>)
    ensures forall b :: b in r <==> b in bookings && b.userId == userId
  {
    if bookings == [] then []
    else if bookings[0].userId == userId then [bookings[0]] + BookingsOf(bookings[1..], userId)
    else BookingsOf(bookings[1..], userId)
  }

  function LatestDateFirst(): (le: (Booking, Booking) -> bool)
    ensures TotalPreorder(le)
    ensures forall a, b :: le(a, b) == (a.bookingDate >= b.bookingDate)
  {
    (a: Booking, b: Booking) => a.bookingDate >= b.bookingDate
  }

  /** The reservations list of `userId`: one view per booking of the user, each
      with its car, latest booking date first. */
  ghost predicate ListsBookings(data: seq<BookingView>, bookings: seq<Booking>, cars: seq<Car>, userId: Id) {
    && |data| == |BookingsOf(bookings, userId)|
    && ViewsAreBookings(data, bookings, cars, userId)
    && EveryBookingShown(data, bookings, userId)
    && (forall i, j :: 0 <= i < j < |data| ==> data[i].bookingDate.instant >= data[j].bookingDate.instant)
  }

  ghost predicate ViewsAreBookings(data: seq<BookingView>, bookings: seq<Booking>, cars: seq<Car>, userId: Id) {
    forall i :: 0 <= i < |data| ==> exists b :: b in bookings && b.userId == userId && ShowsBooking(data[i], b, cars)
  }

  ghost predicate EveryBookingShown(data: seq<BookingView>, bookings: seq<Booking>, userId: Id) {
    forall b :: b in bookings && b.userId == userId ==> exists i :: 0 <= i < |data| && data[i].id == b.id
  }

  ghost predicate ShowsBooking(v: BookingView, b: Booking, cars: seq<Car>) {
    b.carId in CarIds(cars) && v == ViewOfBooking(b, CarOf(cars, b.carId))
  }

  /** `getUserTestDrive`: the caller's bookings with their cars, latest booking
      date first. */
  function GetUserTestDrive(db: Db, caller: Option<string>): (r: Reply<seq<BookingView>>)
    reads db
    requires db.Valid()
    ensures caller.None? ==> r == Fail(LOGIN_REQUIRED)
    ensures caller.Some? && db.CallerUser(caller).None? ==> r == Fail(USER_MISSING)
    ensures db.CallerUser(caller).Some? ==>
      r.Ok? && ListsBookings(r.data, db.bookings, db.cars, db.CallerUser(caller).value.id)
  {
    if caller.None? then Fail(LOGIN_REQUIRED)
    else match db.CallerUser(caller)
      case None => Fail(USER_MISSING)
      case Some(user) =>
        var rows := SortBy(BookingsOf(db.bookings, user.id), LatestDateFirst());
        RowsReferToCars(rows, db.bookings, db.users, db.cars, user.id);
        var data := BookingViews(rows, db.cars);
        ViewsListBookings(rows, data, db.bookings, db.cars, user.id);
        Ok(data)
  }

  /** The rows of a user's bookings, in any order, point to existing cars. */
  lemma RowsReferToCars(rows: seq<Booking>, bookings: seq<Booking>, users: seq<User>, cars: seq<Car>, userId: Id)
    requires BookingRefs(bookings, users, cars)
    requires multiset(rows) == multiset(BookingsOf(bookings, userId))
    ensures forall i :: 0 <= i < |rows| ==> rows[i].carId in CarIds(cars)
  {
    forall i | 0 <= i < |rows| ensures rows[i].carId in CarIds(cars) {
      assert rows[i] in multiset(BookingsOf(bookings, userId));
    }
  }

  /** `bookings.map(...)`: each row with its car. */
  function BookingViews(rows: seq<Booking>, cars: seq<Car>): (data: seq<BookingView>)
    requires forall i :: 0 <= i < |rows| ==> rows[i].carId in CarIds(cars)
    ensures |data| == |rows|
    ensures forall i :: 0 <= i < |rows| ==> data[i] == ViewOfBooking(rows[i], CarOf(cars, rows[i].carId))
  {
    seq(|rows|, i requires 0 <= i < |rows| => ViewOfBooking(rows[i], CarOf(cars, rows[i].carId)))
  }

  lemma ViewsListBookings(rows: seq<Booking>, data: seq<BookingView>, bookings: seq<Booking>, cars: seq<Car>, userId: Id)
    requires multiset(rows) == multiset(BookingsOf(bookings, userId))
    requires SortedBy(rows, LatestDateFirst())
    requires forall i :: 0 <= i < |rows| ==> rows[i].carId in CarIds(cars)
    requires |data| == |rows|
    requires forall i :: 0 <= i < |rows| ==> data[i] == ViewOfBooking(rows[i], CarOf(cars, rows[i].carId))
    ensures ListsBookings(data, bookings, cars, userId)
  {
    assert |rows| == |BookingsOf(bookings, userId)| by {
      assert |multiset(rows)| == |multiset(BookingsOf(bookings, userId))|;
    }
    assert ViewsAreBookings(data, bookings, cars, userId) by {
      forall i | 0 <= i < |data| ensures exists b :: b in bookings && b.userId == userId && ShowsBooking(data[i], b, cars) {
        assert rows[i] in multiset(BookingsOf(bookings, userId));
        assert ShowsBooking(data[i], rows[i], cars);
      }
    }
    assert EveryBookingShown(data, bookings, userId) by {
      forall b | b in bookings && b.userId == userId ensures exists i :: 0 <= i < |data| && data[i].id == b.id {
        assert b in multiset(rows);
        var k :| 0 <= k < |rows| && rows[k] == b;
        assert data[k].id == b.id;
      }
    }
    forall i, j | 0 <= i < j < |data| ensures data[i].bookingDate.instant >= data[j].bookingDate.instant {
      assert LatestDateFirst()(rows[i], rows[j]);
    }
  }

  // ---------------------------------------------------------------------------
  // cancelTestDrive
  // ---------------------------------------------------------------------------

  const CANCELLED_MESSAGE := "Test drive cancelled successfully"

  /** The checks `cancelTestDrive` makes on a found booking, in order. The
      ownership check is written `booking.userId !== user.id || user.role !== 'ADMIN'`,
      so only an admin cancelling a booking of their own gets past it. */
  function CancelRefusal(user: User, b: Booking): (e: Option<string>)
    ensures e.None? <==>
      b.userId == user.id && user.role == ADMIN && b.status !in {CANCELLED, COMPLETED}
    ensures e == Some("Unauthorized to cancel this booking") <==> b.userId != user.id || user.role != ADMIN
    ensures e == Some("Booking is already cancelled") <==>
      b.userId == user.id && user.role == ADMIN && b.status == CANCELLED
    ensures e == Some("Cannot cancel a completed booking") <==>
      b.userId == user.id && user.role == ADMIN && b.status == COMPLETED
  {
    if b.userId != user.id || user.role != ADMIN then Some("Unauthorized to cancel this booking")
    else if b.status == CANCELLED then Some("Booking is already cancelled")
    else if b.status == COMPLETED then Some("Cannot cancel a completed booking")
    else None
  }

  /** An ordinary user can cancel nothing, not even their own booking. */
  lemma UsersCannotCancel(user: User, b: Booking)
    requires user.role == USER
    ensures CancelRefusal(user, b) == Some("Unauthorized to cancel this booking")
  {
  }

  /** `update({ where: { id }, data: { status } })`: the row with that id takes
      the new status; every other row stays as it was. */
  function SetStatus(bookings: seq<Booking>, id: Id, status: BookingStatus): (r: seq<Booking>)
    ensures |r| == |bookings|
    ensures forall i :: 0 <= i < |r| ==>
      r[i] == if bookings[i].id == id then bookings[i].(status := status) else bookings[i]
  {
    seq(|bookings|, i requires 0 <= i < |bookings| =>
      if bookings[i].id == id then bookings[i].(status := status) else bookings[i])
  }

  /** A status update changes no key and no reference. */
  lemma SetStatusKeepsRefs(bookings: seq<Booking>, id: Id, status: BookingStatus, users: seq<User>, cars: seq<Car>)
    requires BookingsKeyed(bookings) && BookingRefs(bookings, users, cars)
    ensures BookingIds(SetStatus(bookings, id, status)) == BookingIds(bookings)
    ensures BookingsKeyed(SetStatus(bookings, id, status))
    ensures BookingRefs(SetStatus(bookings, id, status), users, cars)
  {
    SetStatusKeepsIds(bookings, id, status);
    SetStatusKeepsUsersAndCars(bookings, id, status, users, cars);
  }

  lemma SetStatusKeepsIds(bookings: seq<Booking>, id: Id, status: BookingStatus)
    ensures BookingIds(SetStatus(bookings, id, status)) == BookingIds(bookings)
  {
    var r := SetStatus(bookings, id, status);
    forall x | x in BookingIds(r) ensures x in BookingIds(bookings) {
      var b :| b in r && b.id == x;
      var k :| 0 <= k < |r| && r[k] == b;
      assert bookings[k].id == x;
    }
    forall x | x in BookingIds(bookings) ensures x in BookingIds(r) {
      var b :| b in bookings && b.id == x;
      var k :| 0 <= k < |bookings| && bookings[k] == b;
      assert r[k].id == x;
    }
  }

  lemma SetStatusKeepsUsersAndCars(bookings: seq<Booking>, id: Id, status: BookingStatus, users: seq<User>, cars: seq<Car>)
    requires BookingRefs(bookings, users, cars)
    ensures BookingRefs(SetStatus(bookings, id, status), users, cars)
  {
    var r := SetStatus(bookings, id, status);
    forall b | b in r ensures b.userId in UserIds(users) && b.carId in CarIds(cars) {
      var k :| 0 <= k < |r| && r[k] == b;
      assert bookings[k] in bookings;
    }
  }

  /** Cancelling frees a slot and never makes two held slots collide. */
  lemma CancelKeepsSlotsExclusive(bookings: seq<Booking>, id: Id)
    requires SlotsExclusive(bookings)
    ensures SlotsExclusive(SetStatus(bookings, id, CANCELLED))
    ensures forall b :: b in SetStatus(bookings, id, CANCELLED) && b.id == id ==> !Holds(b)
  {
    var r := SetStatus(bookings, id, CANCELLED);
    forall i, j | 0 <= i < j < |r| && Holds(r[i]) && Holds(r[j]) ensures !SameSlot(r[i], r[j]) {
      assert r[i] == bookings[i] && r[j] == bookings[j];
    }
  }

  /** `cancelTestDrive(bookingId)`: sets the booking's status to CANCELLED when
      every check passes; changes nothing otherwise. */
  method CancelTestDrive(db: Db, caller: Option<string>, bookingId: Id) returns (r: Reply<string>)
    requires db.Valid()
    modifies db
    ensures db.Valid()
    ensures db.users == old(db.users) && db.cars == old(db.cars) && db.saved == old(db.saved)
    ensures db.dealerships == old(db.dealerships) && db.hours == old(db.hours)
    ensures caller.None? ==> r == Fail(LOGIN_REQUIRED)
    ensures caller.Some? && old(db.CallerUser(caller)).None? ==> r == Fail(USER_MISSING)
    ensures old(db.CallerUser(caller)).Some? && bookingId !in BookingIds(old(db.bookings)) ==>
      r == Fail("Booking not found")
    ensures old(db.CallerUser(caller)).Some? && bookingId in BookingIds(old(db.bookings)) ==>
      var e := CancelRefusal(old(db.CallerUser(caller)).value, BookingById(old(db.bookings), bookingId).value);
      && (e.Some? ==> r == Fail(e.value))
      && (e.None? ==> r == Ok(CANCELLED_MESSAGE))
    ensures r.Ok? ==> db.bookings == SetStatus(old(db.bookings), bookingId, CANCELLED)
    ensures !r.Ok? ==> db.bookings == old(db.bookings)
  {
    if caller.None? {
      return Fail(LOGIN_REQUIRED);
    }
    var user := db.CallerUser(caller);
    if user.None? {
      return Fail(USER_MISSING);
    }
    var booking := BookingById(db.bookings, bookingId);
    if booking.None? {
      return Fail("Booking not found");
    }
    var refusal := CancelRefusal(user.value, booking.value);
    if refusal.Some? {
      return Fail(refusal.value);
    }
    SetStatusKeepsRefs(db.bookings, bookingId, CANCELLED, db.users, db.cars);
    db.bookings := SetStatus(db.bookings, bookingId, CANCELLED);
    r := Ok(CANCELLED_MESSAGE);
  }
}
