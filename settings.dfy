/** actions/settings.js: the dealership's working hours and the user roles
    the admin manages. Every failure is thrown with a prefix naming the
    action. */
module Settings {
  import opened Common
  import opened Sorting
  import opened Store
  import opened Helper

  /** One entry of a submitted week. */
  datatype HourInput = HourInput(dayOfWeek: DayOfWeek, openTime: string, closeTime: string, isOpen: bool)

  /** The week a new dealership starts with: weekdays 09:00-18:00, Saturday
      10:00-16:00, Sunday closed. */
  const DEFAULT_WEEK: seq<HourInput> := [
    HourInput(MONDAY, "09:00", "18:00", true),
    HourInput(TUESDAY, "09:00", "18:00", true),
    HourInput(WEDNESDAY, "09:00", "18:00", true),
    HourInput(THURSDAY, "09:00", "18:00", true),
    HourInput(FRIDAY, "09:00", "18:00", true),
    HourInput(SATURDAY, "10:00", "16:00", true),
    HourInput(SUNDAY, "10:00", "16:00", false)]

  /** The position of a day in the enum, the order `orderBy: { dayOfWeek: 'asc' }` uses. */
  function DayIndex(d: DayOfWeek): (n: nat)
    ensures n < 7
  {
    match d
    case MONDAY => 0 case TUESDAY => 1 case WEDNESDAY => 2 case THURSDAY => 3
    case FRIDAY => 4 case SATURDAY => 5 case SUNDAY => 6
  }

  /** The default week names each day once, in day order. */
  lemma DefaultWeekCoversEachDayOnce()
    ensures |DEFAULT_WEEK| == 7
    ensures forall k :: 0 <= k < 7 ==> DayIndex(DEFAULT_WEEK[k].dayOfWeek) == k
    ensures forall d: DayOfWeek :: DEFAULT_WEEK[DayIndex(d)].dayOfWeek == d
  {
  }

  /** The row `db.workingHour.create` writes for one entry. */
  function HourRow(dealershipId: Id, h: HourInput, now: int): WorkingHour {
    WorkingHour(dealershipId, h.dayOfWeek, h.openTime, h.closeTime, h.isOpen, now, now)
  }

  function HourRows(dealershipId: Id, week: seq<HourInput>, now: int): (r: seq<WorkingHour>)
    ensures |r| == |week|
    ensures forall k :: 0 <= k < |r| ==> r[k] == HourRow(dealershipId, week[k], now)
  {
    seq(|week|, k requires 0 <= k < |week| => HourRow(dealershipId, week[k], now))
  }

  /** The hour rows of one dealership, in store order. */
  function HoursOf(hours: seq<WorkingHour>, dealershipId: Id): (r: seq<WorkingHour>)
    ensures forall h :: h in r <==> h in hours && h.dealershipId == dealershipId
  {
    if hours == [] then []
    else
      assert hours == [hours[0]] + hours[1..];
      var rest := HoursOf(hours[1..], dealershipId);
      if hours[0].dealershipId == dealershipId then [hours[0]] + rest else rest
  }

  /** `workingHour.deleteMany({ where: { dealershipId } })`. */
  function RemoveHoursOf(hours: seq<WorkingHour>, dealershipId: Id): (r: seq<WorkingHour>)
    ensures forall h :: h in r <==> h in hours && h.dealershipId != dealershipId
  {
    if hours == [] then []
    else
      assert hours == [hours[0]] + hours[1..];
      var rest := RemoveHoursOf(hours[1..], dealershipId);
      if hours[0].dealershipId == dealershipId then rest else [hours[0]] + rest
  }

  lemma {:induction false} HoursOfAppend(a: seq<WorkingHour>, b: seq<WorkingHour>, id: Id)
    ensures HoursOf(a + b, id) == HoursOf(a, id) + HoursOf(b, id)
  {
    if a == [] {
      assert a + b == b;
    } else {
      assert (a + b)[1..] == a[1..] + b;
      HoursOfAppend(a[1..], b, id);
    }
  }

  lemma {:induction false} HoursOfNone(hours: seq<WorkingHour>, id: Id)
    requires forall h :: h in hours ==> h.dealershipId != id
    ensures HoursOf(hours, id) == []
  {
    if hours != [] {
      HoursOfNone(hours[1..], id);
    }
  }

  lemma {:induction false} HoursOfAll(hours: seq<WorkingHour>, id: Id)
    requires forall h :: h in hours ==> h.dealershipId == id
    ensures HoursOf(hours, id) == hours
  {
    if hours != [] {
      HoursOfAll(hours[1..], id);
      assert hours == [hours[0]] + hours[1..];
    }
  }

  lemma {:induction false} HoursOfRemoved(hours: seq<WorkingHour>, id: Id, other: Id)
    requires other != id
    ensures HoursOf(RemoveHoursOf(hours, id), other) == HoursOf(hours, other)
  {
    if hours != [] {
      HoursOfRemoved(hours[1..], id, other);
    }
  }

  /** Saving a week replaces exactly the schedule of that dealership: its hours
      become the submitted ones, in the submitted order, and every other
      dealership keeps its hours. */
  lemma SavedWeekReplacesSchedule(hours: seq<WorkingHour>, id: Id, week: seq<HourInput>, now: int, other: Id)
    ensures HoursOf(RemoveHoursOf(hours, id) + HourRows(id, week, now), id) == HourRows(id, week, now)
    ensures other != id ==> HoursOf(RemoveHoursOf(hours, id) + HourRows(id, week, now), other) == HoursOf(hours, other)
  {
    var rows := HourRows(id, week, now);
    HoursOfAppend(RemoveHoursOf(hours, id), rows, id);
    HoursOfNone(RemoveHoursOf(hours, id), id);
    HoursOfAll(rows, id);
    assert [] + rows == rows;
    if other != id {
      HoursOfAppend(RemoveHoursOf(hours, id), rows, other);
      HoursOfRemoved(hours, id, other);
      HoursOfNone(rows, other);
      assert HoursOf(hours, other) + [] == HoursOf(hours, other);
    }
  }

  function DayOrderLe(): (le: (WorkingHour, WorkingHour) -> bool)
    ensures TotalPreorder(le)
    ensures forall a, b :: le(a, b) == (DayIndex(a.dayOfWeek) <= DayIndex(b.dayOfWeek))
  {
    (a: WorkingHour, b: WorkingHour) => DayIndex(a.dayOfWeek) <= DayIndex(b.dayOfWeek)
  }

  /** `workingHours: { orderBy: { dayOfWeek: 'asc' } }`. */
  function ByDay(hours: seq<WorkingHour>): (r: seq<WorkingHour>)
    ensures multiset(r) == multiset(hours)
    ensures forall i, j :: 0 <= i < j < |r| ==> DayIndex(r[i].dayOfWeek) <= DayIndex(r[j].dayOfWeek)
  {
    var le := DayOrderLe();
    var r := SortBy(hours, le);
    assert forall i, j :: 0 <= i < j < |r| ==> le(r[i], r[j]);
    r
  }

  // ---------------------------------------------------------------------------
  // getDealershipInfo
  // ---------------------------------------------------------------------------

  /** The dealership as the action returns it: ISO timestamps on the
      dealership, the hour rows as they are. */
  datatype DealershipInfo = DealershipInfo(id: Id, createdAt: Iso, updatedAt: Iso, workingHours: seq<WorkingHour>)

  const INFO_ERROR := "Error fetching dealership info:"

  /** `workingHours` lists the dealership's hours, in day order. */
  ghost predicate ListsHours(list: seq<WorkingHour>, hours: seq<WorkingHour>, id: Id) {
    && multiset(list) == multiset(HoursOf(hours, id))
    && forall i, j :: 0 <= i < j < |list| ==> DayIndex(list[i].dayOfWeek) <= DayIndex(list[j].dayOfWeek)
  }

  /** `getDealershipInfo()`: the first dealership with its hours in day order;
      when there is none, one is created, under the fresh id `newId` at time
      `now`, with the default week. Any known user may call it. */
  method GetDealershipInfo(db: Db, caller: Option<string>, newId: Id, now: int)
    returns (r: Reply<DealershipInfo>)
    modifies db
    requires forall h :: h in db.hours ==> h.dealershipId != newId
    ensures db.users == old(db.users) && db.cars == old(db.cars)
    ensures db.saved == old(db.saved) && db.bookings == old(db.bookings)
    ensures caller.None? ==> r == Raise(INFO_ERROR + "Unauthorized")
    ensures caller.Some? && old(db.CallerUser(caller)).None? ==> r == Raise(INFO_ERROR + "User not found")
    ensures !r.Ok? ==> db.dealerships == old(db.dealerships) && db.hours == old(db.hours)
    ensures old(db.CallerUser(caller)).Some? && old(db.dealerships) != [] ==>
      var d := old(db.dealerships)[0];
      && db.dealerships == old(db.dealerships) && db.hours == old(db.hours)
      && r.Ok? && r.data.id == d.id
      && r.data.createdAt == Iso(d.createdAt) && r.data.updatedAt == Iso(d.updatedAt)
      && ListsHours(r.data.workingHours, db.hours, d.id)
    ensures old(db.CallerUser(caller)).Some? && old(db.dealerships) == [] ==>
      && db.dealerships == [Dealership(newId, now, now)]
      && db.hours == old(db.hours) + HourRows(newId, DEFAULT_WEEK, now)
      && r == Ok(DealershipInfo(newId, Iso(now), Iso(now), HourRows(newId, DEFAULT_WEEK, now)))
      && ListsHours(r.data.workingHours, db.hours, newId)
  {
    if caller.None? {
      return Raise(INFO_ERROR + "Unauthorized");
    }
    if db.CallerUser(caller).None? {
      return Raise(INFO_ERROR + "User not found");
    }
    if db.dealerships != [] {
      var d := db.dealerships[0];
      var list := ByDay(HoursOf(db.hours, d.id));
      return Ok(DealershipInfo(d.id, Iso(d.createdAt), Iso(d.updatedAt), list));
    }
    var rows := HourRows(newId, DEFAULT_WEEK, now);
    SeededHoursListed(db.hours, newId, now);
    db.dealerships := [Dealership(newId, now, now)];
    db.hours := db.hours + rows;
    r := Ok(DealershipInfo(newId, Iso(now), Iso(now), rows));
  }

  /** The seeded week is already in day order and is all the new dealership has. */
  lemma SeededHoursListed(hours: seq<WorkingHour>, id: Id, now: int)
    requires forall h :: h in hours ==> h.dealershipId != id
    ensures ListsHours(HourRows(id, DEFAULT_WEEK, now), hours + HourRows(id, DEFAULT_WEEK, now), id)
  {
    var rows := HourRows(id, DEFAULT_WEEK, now);
    HoursOfAppend(hours, rows, id);
    HoursOfNone(hours, id);
    HoursOfAll(rows, id);
    assert [] + rows == rows;
    DefaultRowsInDayOrder(id, now);
  }

  lemma DefaultRowsInDayOrder(id: Id, now: int)
    ensures forall i, j :: 0 <= i < j < 7 ==>
      DayIndex(HourRows(id, DEFAULT_WEEK, now)[i].dayOfWeek) <= DayIndex(HourRows(id, DEFAULT_WEEK, now)[j].dayOfWeek)
  {
    var rows := HourRows(id, DEFAULT_WEEK, now);
    DefaultWeekCoversEachDayOnce();
    assert forall k :: 0 <= k < 7 ==> rows[k].dayOfWeek == DEFAULT_WEEK[k].dayOfWeek;
  }

  // ---------------------------------------------------------------------------
  // saveWorkingHours
  // ---------------------------------------------------------------------------

  const SAVE_ERROR := "Error saving working hours:"

  /** The `TypeError` the guard `!user && user.role !== 'ADMIN'` raises when
      there is no user: it reads `role` of `null`. */
  const NULL_ROLE := "Cannot read properties of null (reading 'role')"

  /** The store refuses the `create` of entry `at` of the week with `message`
      (a constraint the schema puts on working hours, say); the schema is not
      part of this model, so the refusal arrives as a parameter. */
  datatype CreateRefusal = CreateRefusal(at: nat, message: string)

  /** `saveWorkingHours(workingHours)`: deletes the first dealership's hours,
      then creates one row per entry of the week. The guard only stops a caller
      without a store row (by throwing a `TypeError`); a known user passes
      whatever the role. The replace is not atomic: a refused `create` throws
      with the old hours gone and the earlier entries already written. */
  method SaveWorkingHours(db: Db, caller: Option<string>, week: seq<HourInput>, now: int,
                          refusal: Option<CreateRefusal>)
    returns (r: Reply<()>)
    modifies db
    ensures db.users == old(db.users) && db.cars == old(db.cars)
    ensures db.saved == old(db.saved) && db.bookings == old(db.bookings)
    ensures db.dealerships == old(db.dealerships)
    ensures caller.None? ==> r == Raise(SAVE_ERROR + "Unauthorized")
    ensures caller.Some? && old(db.CallerUser(caller)).None? ==> r == Raise(SAVE_ERROR + NULL_ROLE)
    ensures old(db.CallerUser(caller)).Some? && old(db.dealerships) == [] ==>
      r == Raise(SAVE_ERROR + "DealerShip info not found")
    ensures old(db.CallerUser(caller)).None? || old(db.dealerships) == [] ==> db.hours == old(db.hours)
    ensures old(db.CallerUser(caller)).Some? && old(db.dealerships) != [] && !Refused(refusal, week) ==>
      var id := old(db.dealerships)[0].id;
      r == Ok(()) && db.hours == RemoveHoursOf(old(db.hours), id) + HourRows(id, week, now)
    ensures old(db.CallerUser(caller)).Some? && old(db.dealerships) != [] && Refused(refusal, week) ==>
      var id := old(db.dealerships)[0].id;
      && r == Raise(SAVE_ERROR + refusal.value.message)
      && db.hours == RemoveHoursOf(old(db.hours), id) + HourRows(id, week[..refusal.value.at], now)
  {
    if caller.None? {
      return Raise(SAVE_ERROR + "Unauthorized");
    }
    var user := db.CallerUser(caller);
    if user.None? {
      return Raise(SAVE_ERROR + NULL_ROLE);
    }
    if db.dealerships == [] {
      return Raise(SAVE_ERROR + "DealerShip info not found");
    }
    var id := db.dealerships[0].id;
    var kept := RemoveHoursOf(db.hours, id);
    db.hours := kept;
    var i := 0;
    while i < |week|
      invariant 0 <= i <= |week|
      invariant refusal.Some? ==> i <= refusal.value.at
      invariant db.hours == kept + HourRows(id, week[..i], now)
      invariant db.users == old(db.users) && db.cars == old(db.cars)
      invariant db.saved == old(db.saved) && db.bookings == old(db.bookings)
      invariant db.dealerships == old(db.dealerships)
    {
      if refusal.Some? && refusal.value.at == i {
        return Raise(SAVE_ERROR + refusal.value.message);
      }
      assert HourRows(id, week[..i + 1], now) == HourRows(id, week[..i], now) + [HourRow(id, week[i], now)];
      db.hours := db.hours + [HourRow(id, week[i], now)];
      i := i + 1;
    }
    assert week[..i] == week;
    r := Ok(());
  }

  /** Some entry of the week is refused. */
  predicate Refused(refusal: Option<CreateRefusal>, week: seq<HourInput>) {
    refusal.Some? && refusal.value.at < |week|
  }

  // ---------------------------------------------------------------------------
  // getUsers / updateUserRole
  // ---------------------------------------------------------------------------

  const ADMIN_REQUIRED := "Unauthorized: Admin access required"

  /** The caller's row when it is an admin's. */
  predicate IsAdminCaller(db: Db, caller: Option<string>)
    reads db
  {
    db.CallerUser(caller).Some? && db.CallerUser(caller).value.role == ADMIN
  }

  /** A user as `getUsers` returns it: every column, ISO timestamps. */
  datatype UserView = UserView(
    id: Id, clerkUserId: string, email: string, name: Option<string>,
    imageUrl: Option<string>, phone: Option<string>, role: Role,
    createdAt: Iso, updatedAt: Iso)

  function ViewOfUser(u: User): (v: UserView)
    ensures v.id == u.id && v.role == u.role && v.createdAt == Iso(u.createdAt)
  {
    UserView(u.id, u.clerkUserId, u.email, u.name, u.imageUrl, u.phone, u.role,
             Iso(u.createdAt), Iso(u.updatedAt))
  }

  function UserNewestLe(): (le: (User, User) -> bool)
    ensures TotalPreorder(le)
    ensures forall a, b :: le(a, b) == (a.createdAt >= b.createdAt)
  {
    (a: User, b: User) => a.createdAt >= b.createdAt
  }

  function UsersNewestFirst(users: seq<User>): (r: seq<User>)
    ensures multiset(r) == multiset(users)
    ensures forall i, j :: 0 <= i < j < |r| ==> r[i].createdAt >= r[j].createdAt
  {
    var le := UserNewestLe();
    var r := SortBy(users, le);
    assert forall i, j :: 0 <= i < j < |r| ==> le(r[i], r[j]);
    r
  }

  ghost predicate ShowsUser(v: UserView, users: seq<User>) {
    exists u :: u in users && v == ViewOfUser(u)
  }

  /** `data` shows every user once, newest first. */
  ghost predicate ListsUsers(data: seq<UserView>, users: seq<User>) {
    && |data| == |users|
    && (forall i :: 0 <= i < |data| ==> ShowsUser(data[i], users))
    && (forall u :: u in users ==> ViewOfUser(u) in data)
    && (forall i, j :: 0 <= i < j < |data| ==> data[i].createdAt.instant >= data[j].createdAt.instant)
  }

  function UserViews(rows: seq<User>): (r: seq<UserView>)
    ensures |r| == |rows|
    ensures forall i :: 0 <= i < |r| ==> r[i] == ViewOfUser(rows[i])
  {
    seq(|rows|, i requires 0 <= i < |rows| => ViewOfUser(rows[i]))
  }

  lemma UserViewsList(users: seq<User>)
    ensures ListsUsers(UserViews(UsersNewestFirst(users)), users)
  {
    var sorted := UsersNewestFirst(users);
    var data := UserViews(sorted);
    forall i | 0 <= i < |data| ensures ShowsUser(data[i], users) {
      assert sorted[i] in multiset(users);
    }
    forall u | u in users ensures ViewOfUser(u) in data {
      assert u in multiset(sorted);
      var i :| 0 <= i < |sorted| && sorted[i] == u;
      assert data[i] == ViewOfUser(u);
    }
  }

  const USERS_ERROR := "Error fetching users:"

  /** `getUsers()`: for an admin, every user, newest first. */
  function GetUsers(db: Db, caller: Option<string>): (r: Reply<seq<UserView>>)
    reads db
    ensures caller.None? ==> r == Raise(USERS_ERROR + "Unauthorized")
    ensures caller.Some? && !IsAdminCaller(db, caller) ==> r == Raise(USERS_ERROR + ADMIN_REQUIRED)
    ensures r.Ok? <==> IsAdminCaller(db, caller)
    ensures r.Ok? ==> ListsUsers(r.data, db.users)
  {
    if caller.None? then Raise(USERS_ERROR + "Unauthorized")
    else if !IsAdminCaller(db, caller) then Raise(USERS_ERROR + ADMIN_REQUIRED)
    else
      UserViewsList(db.users);
      Ok(UserViews(UsersNewestFirst(db.users)))
  }

  /** The user rows with the role of the row keyed `id` replaced. */
  function SetRole(users: seq<User>, id: Id, role: Role): (r: seq<User>)
    ensures |r| == |users|
    ensures forall i :: 0 <= i < |r| ==>
      r[i] == (if users[i].id == id then users[i].(role := role) else users[i])
  {
    seq(|users|, i requires 0 <= i < |users| =>
      if users[i].id == id then users[i].(role := role) else users[i])
  }

  /** A role change keeps every id and sign-in id, so the store stays well formed. */
  lemma SetRoleKeepsValid(users: seq<User>, cars: seq<Car>, saved: seq<SavedCar>, bookings: seq<Booking>, id: Id, role: Role)
    requires WellFormed(users, cars, saved, bookings)
    ensures WellFormed(SetRole(users, id, role), cars, saved, bookings)
    ensures UserIds(SetRole(users, id, role)) == UserIds(users)
  {
    var r := SetRole(users, id, role);
    forall x | x in UserIds(users) ensures x in UserIds(r) {
      var k :| 0 <= k < |users| && users[k].id == x;
      assert r[k].id == x;
    }
    forall x | x in UserIds(r) ensures x in UserIds(users) {
      var k :| 0 <= k < |r| && r[k].id == x;
      assert users[k].id == x;
    }
  }

  /** After an admin sets its own role to USER, its sign-in finds the demoted
      row, so it no longer passes the admin check. */
  lemma DemotedAdminLosesAccess(users: seq<User>, u: User)
    requires UsersKeyed(users) && u in users
    ensures UserByClerk(SetRole(users, u.id, USER), u.clerkUserId) == Some(u.(role := USER))
  {
    var r := SetRole(users, u.id, USER);
    var k :| 0 <= k < |users| && users[k] == u;
    assert r[k] == u.(role := USER);
    var found := UserByClerk(r, u.clerkUserId);
    assert found.Some? by {
      assert r[k] in r && r[k].clerkUserId == u.clerkUserId;
    }
    var j :| 0 <= j < |r| && r[j] == found.value;
    assert r[j].clerkUserId == users[j].clerkUserId;
    assert j == k;
  }

  const ROLE_ERROR := "Error updating user role:"

  /** `updateUserRole(userId, role)`: an admin sets the role of the user keyed
      `userId`; `missing` is the store's message when there is no such user. */
  method UpdateUserRole(db: Db, caller: Option<string>, userId: Id, role: Role, missing: string)
    returns (r: Reply<()>)
    modifies db
    requires db.Valid()
    ensures db.Valid()
    ensures db.cars == old(db.cars) && db.saved == old(db.saved) && db.bookings == old(db.bookings)
    ensures db.dealerships == old(db.dealerships) && db.hours == old(db.hours)
    ensures caller.None? ==> r == Raise(ROLE_ERROR + "Unauthorized")
    ensures caller.Some? && !old(IsAdminCaller(db, caller)) ==> r == Raise(ROLE_ERROR + ADMIN_REQUIRED)
    ensures old(IsAdminCaller(db, caller)) && userId !in UserIds(old(db.users)) ==> r == Raise(ROLE_ERROR + missing)
    ensures old(IsAdminCaller(db, caller)) && userId in UserIds(old(db.users)) ==>
      r == Ok(()) && db.users == SetRole(old(db.users), userId, role)
    ensures !r.Ok? ==> db.users == old(db.users)
  {
    if caller.None? {
      return Raise(ROLE_ERROR + "Unauthorized");
    }
    if !IsAdminCaller(db, caller) {
      return Raise(ROLE_ERROR + ADMIN_REQUIRED);
    }
    if UserById(db.users, userId).None? {
      return Raise(ROLE_ERROR + missing);
    }
    SetRoleKeepsValid(db.users, db.cars, db.saved, db.bookings, userId, role);
    db.users := SetRole(db.users, userId, role);
    r := Ok(());
  }
}
