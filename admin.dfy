/** actions/admin.js: the admin gate, the admin's test-drive list, the status
    update of a booking and the dashboard statistics. */
module Admin {
  import opened Common
  import opened Sorting
  import opened Store
  import opened Helper
  import TestDrive

  // ---------------------------------------------------------------------------
  // getAdmin
  // ---------------------------------------------------------------------------

  /** `getAdmin`: throws without a signed-in caller; otherwise the caller is
      authorised exactly when their store row has role ADMIN. */
  function GetAdmin(db: Db, caller: Option<string>): (r: Reply<User>)
    reads db
    ensures caller.None? <==> r == Raise("Unauthorized")
    ensures r.Ok? <==> db.CallerUser(caller).Some? && db.CallerUser(caller).value.role == ADMIN
    ensures r.Ok? ==> r.data == db.CallerUser(caller).value
    ensures !r.Ok? && caller.Some? ==> r == NotAdmin
  {
    if caller.None? then Raise("Unauthorized")
    else match db.CallerUser(caller)
      case None => NotAdmin
      case Some(user) => if user.role != ADMIN then NotAdmin else Ok(user)
  }

  // ---------------------------------------------------------------------------
  // getAdminTestDrives
  // ---------------------------------------------------------------------------

  /** The `status` names the store accepts for a booking. */
  function StatusName(s: BookingStatus): string {
    match s
    case PENDING => "PENDING"
    case CONFIRMED => "CONFIRMED"
    case COMPLETED => "COMPLETED"
    case CANCELLED => "CANCELLED"
    case NO_SHOW => "NO_SHOW"
  }

  /** `validStatuses.includes(name)`, giving the status the name stands for. */
  function StatusOf(name: string): (r: Option<BookingStatus>)
    ensures r.Some? ==> StatusName(r.value) == name
    ensures r.None? <==> forall s :: StatusName(s) != name
  {
    if name == "PENDING" then Some(PENDING)
    else if name == "CONFIRMED" then Some(CONFIRMED)
    else if name == "COMPLETED" then Some(COMPLETED)
    else if name == "CANCELLED" then Some(CANCELLED)
    else if name == "NO_SHOW" then Some(NO_SHOW)
    else None
  }

  /** The user fields the admin list selects. */
  datatype UserSummary = UserSummary(
    id: Id, name: Option<string>, email: string, imageUrl: Option<string>, phone: Option<string>)

  function Summary(u: User): UserSummary {
    UserSummary(u.id, u.name, u.email, u.imageUrl, u.phone)
  }

  /** A booking as the admin list shows it: with its car and a summary of its user. */
  datatype AdminBookingView = AdminBookingView(
    id: Id, carId: Id, car: CarView, userId: Id, user: UserSummary, bookingDate: Iso,
    startTime: string, endTime: string, status: BookingStatus, notes: Option<string>,
    createdAt: Iso, updatedAt: Iso)

  function AdminView(b: Booking, car: Car, user: User): (v: AdminBookingView)
    ensures v.id == b.id && v.bookingDate == Iso(b.bookingDate) && v.startTime == b.startTime
    ensures v.car == Serialize(car, false) && v.user == Summary(user) && v.status == b.status
  {
    AdminBookingView(b.id, b.carId, SerializeDefault(car), b.userId, Summary(user),
                     Iso(b.bookingDate), b.startTime, b.endTime, b.status, b.notes,
                     Iso(b.createdAt), Iso(b.updatedAt))
  }

  /** The `OR` over the booking's car make and model and its user's name and
      email, case-insensitively. A missing name never matches. */
  predicate SearchHit(search: string, car: Car, user: User) {
    || ContainsCI(car.make, search) || ContainsCI(car.model, search)
    || (user.name.Some? && ContainsCI(user.name.value, search))
    || ContainsCI(user.email, search)
  }

  /** The `where` of the admin list: an exact status when one is given, the
      search when it is not empty. */
  predicate AdminSelects(b: Booking, status: Option<BookingStatus>, search: string, users: seq<User>, cars: seq<Car>) {
    && (status.None? || b.status == status.value)
    && (search == "" ||
          (b.carId in CarIds(cars) && b.userId in UserIds(users) &&
           SearchHit(search, CarOf(cars, b.carId), UserById(users, b.userId).value)))
  }

  function AdminSelected(bookings: seq<Booking>, status: Option<BookingStatus>, search: string,
                         users: seq<User>, cars: seq<Car>): (r: seq<Booking>)
    ensures forall b :: b in r <==> b in bookings && AdminSelects(b, status, search, users, cars)
  {
    if bookings == [] then []
    else
      var rest := AdminSelected(bookings[1..], status, search, users, cars);
      assert bookings == [bookings[0]] + bookings[1..];
      if AdminSelects(bookings[0], status, search, users, cars) then [bookings[0]] + rest else rest
  }

  /** `orderBy: [{ bookingDate: 'desc' }, { startTime: 'asc' }]`. */
  predicate AdminBefore(a: Booking, b: Booking) {
    a.bookingDate > b.bookingDate || (a.bookingDate == b.bookingDate && StrLe(a.startTime, b.startTime))
  }

  function AdminOrderLe(): (le: (Booking, Booking) -> bool)
    ensures TotalPreorder(le)
    ensures forall a, b :: le(a, b) == AdminBefore(a, b)
  {
    var le := (a: Booking, b: Booking) => AdminBefore(a, b);
    assert Total(le) by {
      forall a: Booking, b: Booking ensures le(a, b) || le(b, a) {
        StrLeTotal(a.startTime, b.startTime);
      }
    }
    assert Transitive(le) by {
      forall a: Booking, b: Booking, c: Booking | le(a, b) && le(b, c) ensures le(a, c) {
        if a.bookingDate == b.bookingDate == c.bookingDate {
          StrLeTransitive(a.startTime, b.startTime, c.startTime);
        }
      }
    }
    le
  }

  /** The views keep the store's order: later booking date first, then earlier start time. */
  predicate ViewBefore(a: AdminBookingView, b: AdminBookingView) {
    a.bookingDate.instant > b.bookingDate.instant ||
    (a.bookingDate.instant == b.bookingDate.instant && StrLe(a.startTime, b.startTime))
  }

  /** What the admin list shows: one view per selected booking, each with its
      car and user, in the store's order. */
  ghost predicate ListsSelected(data: seq<AdminBookingView>, bookings: seq<Booking>, status: Option<BookingStatus>,
                                search: string, users: seq<User>, cars: seq<Car>) {
    && |data| == |AdminSelected(bookings, status, search, users, cars)|
    && ViewsAreSelected(data, bookings, status, search, users, cars)
    && EverySelectedShown(data, bookings, status, search, users, cars)
    && (forall i, j :: 0 <= i < j < |data| ==> ViewBefore(data[i], data[j]))
  }

  ghost predicate ViewsAreSelected(data: seq<AdminBookingView>, bookings: seq<Booking>, status: Option<BookingStatus>,
                                   search: string, users: seq<User>, cars: seq<Car>) {
    forall i :: 0 <= i < |data| ==> ShowsSelected(data[i], bookings, status, search, users, cars)
  }

  /** `v` shows a booking the admin list selects. */
  ghost predicate ShowsSelected(v: AdminBookingView, bookings: seq<Booking>, status: Option<BookingStatus>,
                                search: string, users: seq<User>, cars: seq<Car>) {
    exists b :: b in bookings && AdminSelects(b, status, search, users, cars) && ShowsAdminBooking(v, b, users, cars)
  }

  ghost predicate EverySelectedShown(data: seq<AdminBookingView>, bookings: seq<Booking>, status: Option<BookingStatus>,
                                     search: string, users: seq<User>, cars: seq<Car>) {
    forall b :: b in bookings && AdminSelects(b, status, search, users, cars) ==>
      exists i :: 0 <= i < |data| && data[i].id == b.id
  }

  ghost predicate ShowsAdminBooking(v: AdminBookingView, b: Booking, users: seq<User>, cars: seq<Car>) {
    && b.carId in CarIds(cars) && b.userId in UserIds(users)
    && v == AdminView(b, CarOf(cars, b.carId), UserById(users, b.userId).value)
  }

  /** What `getAdminTestDrives` hands back. `SucceededWithError` is the catch
      branch, which reports `success: true` together with the error message. */
  datatype AdminTestDrives =
    | Listed(data: seq<AdminBookingView>)
    | SucceededWithError(error: string)
    | Denied

  /** `getAdminTestDrives({ search, status })`. A status text that names no
      booking status is refused by the store; `rejection` is the store's
      message, which surfaces in the catch branch. */
  function GetAdminTestDrives(db: Db, caller: Option<string>, search: string, status: string, rejection: string)
    : (r: AdminTestDrives)
    reads db
    requires db.Valid()
    ensures caller.None? ==> r == SucceededWithError("Unauthorized")
    ensures r.Denied? <==> caller.Some? && GetAdmin(db, caller) == NotAdmin
    ensures GetAdmin(db, caller).Ok? && status != "" && StatusOf(status).None? ==> r == SucceededWithError(rejection)
    ensures r.Listed? <==> GetAdmin(db, caller).Ok? && (status == "" || StatusOf(status).Some?)
    ensures r.Listed? ==>
      ListsSelected(r.data, db.bookings, if status == "" then None else StatusOf(status), search, db.users, db.cars)
  {
    var admin := GetAdmin(db, caller);
    if admin.Raise? then SucceededWithError(admin.message)
    else if !admin.Ok? then Denied
    else
      if status != "" && StatusOf(status).None? then SucceededWithError(rejection)
      else
        var st := if status == "" then None else StatusOf(status);
        var rows := SortBy(AdminSelected(db.bookings, st, search, db.users, db.cars), AdminOrderLe());
        var users := db.users;
        var cars := db.cars;
        assert forall i :: 0 <= i < |rows| ==> rows[i] in db.bookings by {
          forall i | 0 <= i < |rows| ensures rows[i] in db.bookings {
            assert rows[i] in multiset(AdminSelected(db.bookings, st, search, db.users, db.cars));
          }
        }
        var data := AdminViews(rows, users, cars);
        SortedAdminBefore(rows);
        ViewsListSelected(rows, data, db.bookings, st, search, users, cars);
        Listed(data)
  }

  /** `booking.map(...)`: each row with its car and its user. */
  function AdminViews(rows: seq<Booking>, users: seq<User>, cars: seq<Car>): (data: seq<AdminBookingView>)
    requires forall i :: 0 <= i < |rows| ==> rows[i].carId in CarIds(cars) && rows[i].userId in UserIds(users)
    ensures |data| == |rows|
    ensures forall i :: 0 <= i < |rows| ==> ShowsAdminBooking(data[i], rows[i], users, cars)
    ensures forall i :: 0 <= i < |rows| ==> data[i].id == rows[i].id
    ensures forall i :: 0 <= i < |rows| ==>
      data[i].bookingDate.instant == rows[i].bookingDate && data[i].startTime == rows[i].startTime
  {
    seq(|rows|, i requires 0 <= i < |rows| =>
      AdminView(rows[i], CarOf(cars, rows[i].carId), UserById(users, rows[i].userId).value))
  }

  lemma ViewsListSelected(rows: seq<Booking>, data: seq<AdminBookingView>, bookings: seq<Booking>,
                          status: Option<BookingStatus>, search: string, users: seq<User>, cars: seq<Car>)
    requires multiset(rows) == multiset(AdminSelected(bookings, status, search, users, cars))
    requires forall i, j :: 0 <= i < j < |rows| ==> AdminBefore(rows[i], rows[j])
    requires |data| == |rows|
    requires forall i :: 0 <= i < |rows| ==> ShowsAdminBooking(data[i], rows[i], users, cars)
    requires forall i :: 0 <= i < |rows| ==> data[i].id == rows[i].id
    requires forall i :: 0 <= i < |rows| ==>
      data[i].bookingDate.instant == rows[i].bookingDate && data[i].startTime == rows[i].startTime
    ensures ListsSelected(data, bookings, status, search, users, cars)
  {
    PermutationSize(rows, AdminSelected(bookings, status, search, users, cars));
    RowsAreSelected(rows, data, bookings, status, search, users, cars);
    SelectedAreShown(rows, data, bookings, status, search, users, cars);
    ViewsInOrder(rows, data);
  }

  lemma PermutationSize(a: seq<Booking>, b: seq<Booking>)
    requires multiset(a) == multiset(b)
    ensures |a| == |b|
  {
    assert |multiset(a)| == |multiset(b)|;
  }

  lemma ViewsInOrder(rows: seq<Booking>, data: seq<AdminBookingView>)
    requires forall i, j :: 0 <= i < j < |rows| ==> AdminBefore(rows[i], rows[j])
    requires |data| == |rows|
    requires forall i :: 0 <= i < |rows| ==>
      data[i].bookingDate.instant == rows[i].bookingDate && data[i].startTime == rows[i].startTime
    ensures forall i, j :: 0 <= i < j < |data| ==> ViewBefore(data[i], data[j])
  {
    forall i, j | 0 <= i < j < |data| ensures ViewBefore(data[i], data[j]) {
      assert AdminBefore(rows[i], rows[j]);
    }
  }

  lemma SortedAdminBefore(rows: seq<Booking>)
    requires SortedBy(rows, AdminOrderLe())
    ensures forall i, j :: 0 <= i < j < |rows| ==> AdminBefore(rows[i], rows[j])
  {
    forall i, j | 0 <= i < j < |rows| ensures AdminBefore(rows[i], rows[j]) {
      assert AdminOrderLe()(rows[i], rows[j]);
    }
  }

  lemma RowsAreSelected(rows: seq<Booking>, data: seq<AdminBookingView>, bookings: seq<Booking>,
                        status: Option<BookingStatus>, search: string, users: seq<User>, cars: seq<Car>)
    requires multiset(rows) == multiset(AdminSelected(bookings, status, search, users, cars))
    requires |data| == |rows|
    requires forall i :: 0 <= i < |rows| ==> ShowsAdminBooking(data[i], rows[i], users, cars)
    ensures ViewsAreSelected(data, bookings, status, search, users, cars)
  {
    forall i | 0 <= i < |data| ensures ShowsSelected(data[i], bookings, status, search, users, cars) {
      assert rows[i] in multiset(AdminSelected(bookings, status, search, users, cars));
      assert ShowsAdminBooking(data[i], rows[i], users, cars);
    }
  }

  lemma SelectedAreShown(rows: seq<Booking>, data: seq<AdminBookingView>, bookings: seq<Booking>,
                         status: Option<BookingStatus>, search: string, users: seq<User>, cars: seq<Car>)
    requires multiset(rows) == multiset(AdminSelected(bookings, status, search, users, cars))
    requires |data| == |rows|
    requires forall i :: 0 <= i < |rows| ==> data[i].id == rows[i].id
    ensures EverySelectedShown(data, bookings, status, search, users, cars)
  {
    forall b | b in bookings && AdminSelects(b, status, search, users, cars)
      ensures exists i :: 0 <= i < |data| && data[i].id == b.id
    {
      assert b in multiset(rows);
      var k :| 0 <= k < |rows| && rows[k] == b;
      assert data[k].id == b.id;
    }
  }

  // ---------------------------------------------------------------------------
  // updatetestDriveStatus
  // ---------------------------------------------------------------------------

  const UPDATE_ERROR := "Error updating test drive status:"

  /** `updatetestDriveStatus(bookingId, newStatus)`. Thrown errors are caught and
      thrown again with a prefix. The booking is looked up before the status name
      is checked, and any of the five names is written with no restriction on
      the transition. */
  method UpdateTestDriveStatus(db: Db, caller: Option<string>, bookingId: Id, newStatus: string)
    returns (r: Reply<string>)
    requires db.Valid()
    modifies db
    ensures db.Valid()
    ensures db.users == old(db.users) && db.cars == old(db.cars) && db.saved == old(db.saved)
    ensures db.dealerships == old(db.dealerships) && db.hours == old(db.hours)
    ensures caller.None? ==> r == Raise(UPDATE_ERROR + "Unauthorized")
    ensures caller.Some? && !old(GetAdmin(db, caller)).Ok? ==> r == NotAdmin
    ensures old(GetAdmin(db, caller)).Ok? && bookingId !in BookingIds(old(db.bookings)) ==>
      r == Raise(UPDATE_ERROR + "Booking not found")
    ensures old(GetAdmin(db, caller)).Ok? && bookingId in BookingIds(old(db.bookings)) && StatusOf(newStatus).None? ==>
      r == Fail("Invalid status")
    ensures r.Ok? <==>
      old(GetAdmin(db, caller)).Ok? && bookingId in BookingIds(old(db.bookings)) && StatusOf(newStatus).Some?
    ensures r.Ok? ==>
      && r.data == "Test drive status updated successfully"
      && db.bookings == TestDrive.SetStatus(old(db.bookings), bookingId, StatusOf(newStatus).value)
    ensures !r.Ok? ==> db.bookings == old(db.bookings)
  {
    var admin := GetAdmin(db, caller);
    if admin.Raise? {
      return Raise(UPDATE_ERROR + admin.message);
    }
    if !admin.Ok? {
      return NotAdmin;
    }
    var booking := BookingById(db.bookings, bookingId);
    if booking.None? {
      return Raise(UPDATE_ERROR + "Booking not found");
    }
    var status := StatusOf(newStatus);
    if status.None? {
      return Fail("Invalid status");
    }
    TestDrive.SetStatusKeepsRefs(db.bookings, bookingId, status.value, db.users, db.cars);
    db.bookings := TestDrive.SetStatus(db.bookings, bookingId, status.value);
    r := Ok("Test drive status updated successfully");
  }

  /** After an update the booking carries the status it was given. */
  lemma UpdatedBookingHasStatus(bookings: seq<Booking>, id: Id, s: BookingStatus)
    requires BookingsKeyed(bookings) && id in BookingIds(bookings)
    ensures BookingById(TestDrive.SetStatus(bookings, id, s), id).Some?
    ensures BookingById(TestDrive.SetStatus(bookings, id, s), id).value
      == BookingById(bookings, id).value.(status := s)
  {
    var r := TestDrive.SetStatus(bookings, id, s);
    var b := BookingById(bookings, id).value;
    var k :| 0 <= k < |bookings| && bookings[k] == b;
    assert BookingsKeyed(r) by {
      forall i, j | 0 <= i < j < |r| ensures r[i].id != r[j].id {
        assert r[i].id == bookings[i].id && r[j].id == bookings[j].id;
      }
    }
    assert r[k] == b.(status := s);
    BookingByIdFindsRow(r, r[k]);
  }

  // ---------------------------------------------------------------------------
  // getDashboardData
  // ---------------------------------------------------------------------------

  datatype CarStats = CarStats(total: nat, available: nat, sold: nat, unavailable: nat, featured: nat)

  /** `conversionRate` is the percentage before `toFixed(2)`. */
  datatype DriveStats = DriveStats(
    total: nat, pending: nat, confirmed: nat, completed: nat, cancelled: nat, noShow: nat,
    conversionRate: real)

  datatype Dashboard = Dashboard(cars: CarStats, testDrives: DriveStats)

  function CarHasStatus(s: CarStatus): Car -> bool {
    (c: Car) => c.status == s
  }

  function BookingHasStatus(s: BookingStatus): Booking -> bool {
    (b: Booking) => b.status == s
  }

  /** `testDrives.filter(COMPLETED).map(td => td.carId)`. */
  function CompletedCarIds(bookings: seq<Booking>): (ids: seq<Id>)
    ensures |ids| == Count(bookings, BookingHasStatus(COMPLETED))
    ensures forall id :: id in ids <==> exists b :: b in bookings && b.status == COMPLETED && b.carId == id
  {
    if bookings == [] then []
    else
      assert bookings == [bookings[0]] + bookings[1..];
      (if bookings[0].status == COMPLETED then [bookings[0].carId] else []) + CompletedCarIds(bookings[1..])
  }

  /** A SOLD car whose id is among the completed bookings' car ids. */
  function SoldAfter(ids: seq<Id>): Car -> bool {
    (c: Car) => c.status == SOLD && c.id in ids
  }

  function ConversionRate(soldAfter: nat, completed: nat): real {
    if completed > 0 then (soldAfter as real / completed as real) * 100.0 else 0.0
  }

  /** The figures of the dashboard: one `filter(...).length` per status, the
      featured cars, and the share of completed test drives whose car was sold. */
  function Statistics(cars: seq<Car>, bookings: seq<Booking>): (d: Dashboard)
    ensures d.cars.total == |cars| && d.testDrives.total == |bookings|
    ensures d.cars.available == Count(cars, CarHasStatus(AVAILABLE))
    ensures d.cars.sold == Count(cars, CarHasStatus(SOLD))
    ensures d.cars.unavailable == Count(cars, CarHasStatus(UNAVAILABLE))
    ensures d.cars.featured == Count(cars, (c: Car) => c.featured)
    ensures d.testDrives.pending == Count(bookings, BookingHasStatus(PENDING))
    ensures d.testDrives.confirmed == Count(bookings, BookingHasStatus(CONFIRMED))
    ensures d.testDrives.completed == Count(bookings, BookingHasStatus(COMPLETED))
    ensures d.testDrives.cancelled == Count(bookings, BookingHasStatus(CANCELLED))
    ensures d.testDrives.noShow == Count(bookings, BookingHasStatus(NO_SHOW))
    ensures d.testDrives.conversionRate ==
      ConversionRate(Count(cars, SoldAfter(CompletedCarIds(bookings))), d.testDrives.completed)
  {
    var completed := Count(bookings, BookingHasStatus(COMPLETED));
    var soldAfter := Count(cars, SoldAfter(CompletedCarIds(bookings)));
    Dashboard(
      CarStats(|cars|, Count(cars, CarHasStatus(AVAILABLE)), Count(cars, CarHasStatus(SOLD)),
               Count(cars, CarHasStatus(UNAVAILABLE)), Count(cars, (c: Car) => c.featured)),
      DriveStats(|bookings|, Count(bookings, BookingHasStatus(PENDING)), Count(bookings, BookingHasStatus(CONFIRMED)),
                 completed, Count(bookings, BookingHasStatus(CANCELLED)), Count(bookings, BookingHasStatus(NO_SHOW)),
                 ConversionRate(soldAfter, completed)))
  }

  /** Every car has one of three statuses, so the status counts add up to the total. */
  lemma {:induction false} CarCountsPartition(cars: seq<Car>)
    ensures Count(cars, CarHasStatus(AVAILABLE)) + Count(cars, CarHasStatus(SOLD))
          + Count(cars, CarHasStatus(UNAVAILABLE)) == |cars|
  {
    if cars != [] {
      CarCountsPartition(cars[1..]);
    }
  }

  /** Every booking has one of five statuses, so the status counts add up to the total. */
  lemma {:induction false} DriveCountsPartition(bookings: seq<Booking>)
    ensures Count(bookings, BookingHasStatus(PENDING)) + Count(bookings, BookingHasStatus(CONFIRMED))
          + Count(bookings, BookingHasStatus(COMPLETED)) + Count(bookings, BookingHasStatus(CANCELLED))
          + Count(bookings, BookingHasStatus(NO_SHOW)) == |bookings|
  {
    if bookings != [] {
      DriveCountsPartition(bookings[1..]);
    }
  }

  /** A car counted as sold after a test drive is counted as sold. */
  lemma {:induction false} SoldAfterAtMostSold(cars: seq<Car>, ids: seq<Id>)
    ensures Count(cars, SoldAfter(ids)) <= Count(cars, CarHasStatus(SOLD))
  {
    if cars != [] {
      SoldAfterAtMostSold(cars[1..], ids);
    }
  }

  function IdIn(ids: set<Id>): Car -> bool {
    (c: Car) => c.id in ids
  }

  /** Cars with distinct ids drawn from a set of ids are no more than the set. */
  lemma {:induction false} DistinctCarsWithin(cars: seq<Car>, ids: set<Id>)
    requires CarsKeyed(cars)
    ensures Count(cars, IdIn(ids)) <= |ids * CarIds(cars)|
  {
    if cars != [] {
      var rest := cars[1..];
      TailKeyed(cars);
      DistinctCarsWithin(rest, ids);
      InterWithHead(cars, ids);
    }
  }

  /** The head's id adds one to the ids shared with the set when it is in the set. */
  lemma InterWithHead(cars: seq<Car>, ids: set<Id>)
    requires CarsKeyed(cars) && cars != []
    ensures |ids * CarIds(cars)| == |ids * CarIds(cars[1..])| + if cars[0].id in ids then 1 else 0
  {
    var a := ids * CarIds(cars[1..]);
    var b := ids * CarIds(cars);
    HeadIdFresh(cars);
    if cars[0].id in ids {
      assert b == a + {cars[0].id};
      assert cars[0].id !in a;
    } else {
      assert b == a;
    }
  }

  lemma TailKeyed(cars: seq<Car>)
    requires CarsKeyed(cars) && cars != []
    ensures CarsKeyed(cars[1..])
  {
    var rest := cars[1..];
    forall i, j | 0 <= i < j < |rest| ensures rest[i].id != rest[j].id {
      assert rest[i] == cars[i + 1] && rest[j] == cars[j + 1];
    }
  }

  lemma HeadIdFresh(cars: seq<Car>)
    requires CarsKeyed(cars) && cars != []
    ensures cars[0].id !in CarIds(cars[1..])
    ensures CarIds(cars) == CarIds(cars[1..]) + {cars[0].id}
  {
    var rest := cars[1..];
    forall c | c in rest ensures c.id != cars[0].id {
      var k :| 0 <= k < |rest| && rest[k] == c;
      assert cars[k + 1] == c;
    }
    assert cars == [cars[0]] + rest;
  }

  /** With unique car ids, no more cars are sold after a test drive than there
      are completed test drives, so the conversion rate is a percentage. */
  lemma ConversionRateIsPercentage(cars: seq<Car>, bookings: seq<Booking>)
    requires CarsKeyed(cars)
    ensures Statistics(cars, bookings).testDrives.conversionRate >= 0.0
    ensures Statistics(cars, bookings).testDrives.conversionRate <= 100.0
  {
    SoldAfterAtMostCompleted(cars, bookings);
    RateBounds(Count(cars, SoldAfter(CompletedCarIds(bookings))), Count(bookings, BookingHasStatus(COMPLETED)));
  }

  /** With unique car ids, each car sold after a test drive accounts for at
      least one completed booking of its own. */
  lemma SoldAfterAtMostCompleted(cars: seq<Car>, bookings: seq<Booking>)
    requires CarsKeyed(cars)
    ensures Count(cars, SoldAfter(CompletedCarIds(bookings))) <= Count(bookings, BookingHasStatus(COMPLETED))
  {
    var ids := CompletedCarIds(bookings);
    SoldAfterWithin(cars, ids);
    DistinctCarsWithin(cars, IdSet(ids));
    IntersectionSize(IdSet(ids), CarIds(cars));
    SeqSetSize(ids);
  }

  lemma IntersectionSize(a: set<Id>, b: set<Id>)
    ensures |a * b| <= |a|
  {
    SubsetSize(a * b, a);
  }

  lemma {:induction false} SubsetSize(a: set<Id>, b: set<Id>)
    requires a <= b
    ensures |a| <= |b|
    decreases a
  {
    if a != {} {
      var x :| x in a;
      SubsetSize(a - {x}, b - {x});
    }
  }

  /** The ids a sequence holds. */
  function IdSet(ids: seq<Id>): (r: set<Id>)
    ensures forall x :: x in r <==> x in ids
  {
    set id | id in ids
  }

  lemma {:induction false} SeqSetSize(ids: seq<Id>)
    ensures |IdSet(ids)| <= |ids|
  {
    if ids != [] {
      SeqSetSize(ids[1..]);
      assert IdSet(ids) == IdSet(ids[1..]) + {ids[0]} by {
        assert ids == [ids[0]] + ids[1..];
      }
    }
  }

  lemma {:induction false} SoldAfterWithin(cars: seq<Car>, ids: seq<Id>)
    ensures Count(cars, SoldAfter(ids)) <= Count(cars, IdIn(IdSet(ids)))
  {
    if cars != [] {
      SoldAfterWithin(cars[1..], ids);
    }
  }

  lemma RateBounds(soldAfter: nat, completed: nat)
    requires soldAfter <= completed
    ensures 0.0 <= ConversionRate(soldAfter, completed) <= 100.0
  {
    if completed > 0 {
      var c := completed as real;
      var q := soldAfter as real / c;
      assert q * c == soldAfter as real;
      assert (1.0 - q) * c >= 0.0;
      PositiveFactor(1.0 - q, c);
      PositiveFactor(q, c);
    }
  }

  /** A product with a positive factor has the sign of the other factor. */
  lemma PositiveFactor(a: real, c: real)
    requires c > 0.0 && a * c >= 0.0
    ensures a >= 0.0
  {
  }

  /** `getDashboardData`: counts over all cars and all bookings. A missing
      identity is thrown and caught, so it comes back as `{ success: false }`. */
  function GetDashboardData(db: Db, caller: Option<string>): (r: Reply<Dashboard>)
    reads db
    ensures caller.None? ==> r == Fail("Unauthorized")
    ensures caller.Some? ==> (r == NotAdmin <==> !GetAdmin(db, caller).Ok?)
    ensures r.Ok? <==> GetAdmin(db, caller).Ok?
    ensures r.Ok? ==>
      && r.data.cars.total == |db.cars|
      && r.data.cars.available + r.data.cars.sold + r.data.cars.unavailable == r.data.cars.total
      && r.data.testDrives.total == |db.bookings|
      && r.data.testDrives.pending + r.data.testDrives.confirmed + r.data.testDrives.completed
         + r.data.testDrives.cancelled + r.data.testDrives.noShow == r.data.testDrives.total
      && (r.data.testDrives.completed == 0 ==> r.data.testDrives.conversionRate == 0.0)
      && r.data.cars.featured <= r.data.cars.total
    ensures r.Ok? ==> r.data == Statistics(db.cars, db.bookings)
  {
    var admin := GetAdmin(db, caller);
    if admin.Raise? then Fail(admin.message)
    else if !admin.Ok? then NotAdmin
    else
      CarCountsPartition(db.cars);
      DriveCountsPartition(db.bookings);
      Ok(Statistics(db.cars, db.bookings))
  }
  /** On a well-formed store the dashboard's conversion rate is a percentage. */
  lemma DashboardRateIsPercentage(db: Db, caller: Option<string>)
    requires db.Valid()
    requires GetDashboardData(db, caller).Ok?
    ensures 0.0 <= GetDashboardData(db, caller).data.testDrives.conversionRate <= 100.0
  {
    ConversionRateIsPercentage(db.cars, db.bookings);
  }

}
