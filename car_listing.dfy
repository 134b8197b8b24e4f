/** actions/car-listing.js: the public listing query, the wishlist toggle, the
    filter options and the caller's saved cars. */
module CarListing {
  import opened Common
  import opened Store
  import opened Sorting
  import opened Helper

  const MAX_SAFE_INTEGER: real := 9007199254740991.0

  /** A number after JavaScript's numeric coercion: a finite value, or NaN. */
  datatype Num = Num(value: real) | NaN

  /** A price argument as it reaches `getCars`: a number (the defaults of the
      destructuring pattern), or the text of a URL parameter, which the listing
      page passes on uncoerced. Decimal parsing is not modelled: a text argument
      carries its two coercions, `Number(text)` and `parseFloat(text)`. */
  datatype PriceArg = Number(n: Num) | Text(text: string, number: Num, float: Num)

  /** The options object of `getCars`. */
  datatype ListingQuery = ListingQuery(
    search: string, make: string, bodyType: string, fuelType: string,
    transmission: string, minPrice: PriceArg, maxPrice: PriceArg, sortBy: string,
    page: int, limit: int)

  /** The defaults of the destructuring pattern. */
  function DefaultQuery(): ListingQuery {
    ListingQuery("", "", "", "", "", Number(Num(0.0)), Number(Num(MAX_SAFE_INTEGER)), "newest", 1, 6)
  }

  /** JavaScript truthiness: 0 and NaN are falsy, and so is the empty text only. */
  predicate ArgTruthy(a: PriceArg) {
    match a
    case Number(n) => n.Num? && n.value != 0.0
    case Text(t, _, _) => t != ""
  }

  /** The value a relational comparison sees. */
  function ToNumber(a: PriceArg): Num {
    match a
    case Number(n) => n
    case Text(_, number, _) => number
  }

  /** `parseFloat(a)`; a number parses to itself. */
  function ParseFloat(a: PriceArg): Num {
    match a
    case Number(n) => n
    case Text(_, _, float) => float
  }

  // ---------------------------------------------------------------------------
  // The `where` object
  // ---------------------------------------------------------------------------

  /** `where` as `getCars` assembles it: always `status: 'AVAILABLE'`; an `OR`
      over make, model and description when there is a search text; one
      case-insensitive equality per non-empty category; `price.gte`, and
      `price.lte` when an upper bound applies. */
  datatype Where = Where(
    search: Option<string>, make: Option<string>, bodyType: Option<string>,
    fuelType: Option<string>, transmission: Option<string>,
    gte: real, lte: Option<Num>)

  function IfGiven(s: string): Option<string> {
    if s == "" then None else Some(s)
  }

  /** `parseFloat(minPrice) || 0`: NaN and 0 both give 0. */
  function LowerBound(a: PriceArg): real {
    match ParseFloat(a)
    case NaN => 0.0
    case Num(v) => v
  }

  /** `if (maxPrice && maxPrice < Number.MAX_SAFE_INTEGER) where.price.lte =
      parseFloat(maxPrice)`: a falsy argument sets no bound, and neither does the
      default sentinel, which is not below itself. The text "0" is truthy. */
  function UpperBound(a: PriceArg): Option<Num> {
    if ArgTruthy(a) && ToNumber(a).Num? && ToNumber(a).value < MAX_SAFE_INTEGER then Some(ParseFloat(a))
    else None
  }

  predicate EqualsIfGiven(filter: Option<string>, value: string) {
    filter.None? || EqualsCI(value, filter.value)
  }

  /** How the store evaluates `where` on a row. A comparison with a missing
      price is false, as a comparison with NULL is in SQL, and so is a
      comparison with a NaN bound. */
  predicate Matches(w: Where, c: Car) {
    && c.status == AVAILABLE
    && (w.search.None? || ContainsCI(c.make, w.search.value)
        || ContainsCI(c.model, w.search.value) || ContainsCI(c.description, w.search.value))
    && EqualsIfGiven(w.make, c.make)
    && EqualsIfGiven(w.bodyType, c.bodyType)
    && EqualsIfGiven(w.fuelType, c.fuelType)
    && EqualsIfGiven(w.transmission, c.transmission)
    && c.price.Some? && c.price.value >= w.gte
    && (w.lte.None? || (w.lte.value.Num? && c.price.value <= w.lte.value.value))
  }

  /** The query object of `getCars`, stated as the set of rows it selects. */
  function BuildWhere(q: ListingQuery): (w: Where)
    ensures forall c :: Matches(w, c) <==>
      && c.status == AVAILABLE
      && (q.search != "" ==> ContainsCI(c.make, q.search) || ContainsCI(c.model, q.search)
                             || ContainsCI(c.description, q.search))
      && (q.make != "" ==> EqualsCI(c.make, q.make))
      && (q.bodyType != "" ==> EqualsCI(c.bodyType, q.bodyType))
      && (q.fuelType != "" ==> EqualsCI(c.fuelType, q.fuelType))
      && (q.transmission != "" ==> EqualsCI(c.transmission, q.transmission))
      && c.price.Some?
      && c.price.value >= (if ParseFloat(q.minPrice).Num? then ParseFloat(q.minPrice).value else 0.0)
      && (ArgTruthy(q.maxPrice) && ToNumber(q.maxPrice).Num? && ToNumber(q.maxPrice).value < MAX_SAFE_INTEGER ==>
            ParseFloat(q.maxPrice).Num? && c.price.value <= ParseFloat(q.maxPrice).value)
  {
    Where(IfGiven(q.search), IfGiven(q.make), IfGiven(q.bodyType), IfGiven(q.fuelType),
          IfGiven(q.transmission), LowerBound(q.minPrice), UpperBound(q.maxPrice))
  }

  /** The number 0 sets no upper bound, while the text "0", which the listing
      page passes on from its URL, caps every price at 0. */
  lemma ZeroMaxPrice(q: ListingQuery, c: Car)
    requires q == DefaultQuery().(maxPrice := Number(Num(0.0)))
    requires c.status == AVAILABLE && c.price == Some(1.0)
    ensures Matches(BuildWhere(q), c)
    ensures !Matches(BuildWhere(q.(maxPrice := Text("0", Num(0.0), Num(0.0)))), c)
  {
  }

  /** The rows of `cars` that `w` selects, in store order. */
  function Matching(cars: seq<Car>, w: Where): (r: seq<Car>)
    ensures forall c :: c in r <==> c in cars && Matches(w, c)
    ensures forall i :: 0 <= i < |r| ==> Matches(w, r[i])
    ensures |r| <= |cars|
  {
    if cars == [] then []
    else if Matches(w, cars[0]) then [cars[0]] + Matching(cars[1..], w)
    else Matching(cars[1..], w)
  }

  // ---------------------------------------------------------------------------
  // Ordering and pagination
  // ---------------------------------------------------------------------------

  datatype CarOrder = Newest | PriceAsc | PriceDesc

  /** The `switch (sortBy)`: any value other than the two price orders is newest first. */
  function OrderOf(sortBy: string): (o: CarOrder)
    ensures o == PriceAsc <==> sortBy == "priceAsc"
    ensures o == PriceDesc <==> sortBy == "priceDesc"
  {
    if sortBy == "priceAsc" then PriceAsc
    else if sortBy == "priceDesc" then PriceDesc
    else Newest
  }

  /** `a` may come before `b`. Missing prices sort last ascending and first
      descending, the store's default placement of NULLs. */
  predicate CarLe(o: CarOrder, a: Car, b: Car) {
    match o
    case Newest => a.createdAt >= b.createdAt
    case PriceAsc =>
      (a.price.Some? && b.price.Some? && a.price.value <= b.price.value) || b.price.None?
    case PriceDesc =>
      (a.price.Some? && b.price.Some? && a.price.value >= b.price.value) || a.price.None?
  }

  function CarOrderLe(o: CarOrder): (le: (Car, Car) -> bool)
    ensures TotalPreorder(le)
    ensures forall a, b :: le(a, b) == CarLe(o, a, b)
  {
    (a: Car, b: Car) => CarLe(o, a, b)
  }

  /** The order the caller sees on the returned views. */
  predicate ViewInOrder(o: CarOrder, a: CarView, b: CarView) {
    match o
    case Newest => a.createdAt.instant >= b.createdAt.instant
    case PriceAsc => a.price <= b.price
    case PriceDesc => a.price >= b.price
  }

  /** `Math.ceil(total / limit)`. */
  function PageCount(total: nat, limit: int): (pages: nat)
    requires limit >= 1
    ensures pages * limit >= total
    ensures pages == 0 || (pages - 1) * limit < total
    ensures pages == 0 <==> total == 0
  {
    var p := (total + limit - 1) / limit;
    var m := (total + limit - 1) % limit;
    assert total + limit - 1 == p * limit + m;
    assert (p - 1) * limit == p * limit - limit;
    p
  }

  /** Car ids on the wishlist of `userId`. */
  function SavedCarIds(saved: seq<SavedCar>, userId: Id): (ids: set<Id>)
    ensures forall id :: id in ids <==> exists s :: s in saved && s.userId == userId && s.carId == id
  {
    set s | s in saved && s.userId == userId :: s.carId
  }

  datatype Pagination = Pagination(total: nat, page: int, limit: int, pages: nat)

  /** `Undefined`: the function falls off its end and resolves to `undefined`. */
  datatype ListingPage = Undefined | Listing(data: seq<CarView>, pagination: Pagination)

  /** What one ranked page shows: each view is the serialisation of a selected row,
      flagged by wishlist membership, and the views keep the requested order. */
  ghost predicate PageShows(data: seq<CarView>, cars: seq<Car>, w: Where, o: CarOrder, ids: set<Id>) {
    && (forall i :: 0 <= i < |data| ==> ShowsRow(data[i], cars, w, ids))
    && (forall i, j :: 0 <= i < j < |data| ==> ViewInOrder(o, data[i], data[j]))
  }

  /** `v` is the serialisation of a row of `cars` that `w` selects. */
  ghost predicate ShowsRow(v: CarView, cars: seq<Car>, w: Where, ids: set<Id>) {
    exists c :: c in cars && Matches(w, c) && v == Serialize(c, c.id in ids)
  }

  /** A page whose rows are all selected and ordered shows what `PageShows` says. */
  lemma ViewsOfPage(page: seq<Car>, cars: seq<Car>, w: Where, o: CarOrder, ids: set<Id>)
    requires forall c :: c in page ==> c in cars && Matches(w, c)
    requires SortedBy(page, CarOrderLe(o))
    ensures PageShows(PageViews(page, ids), cars, w, o, ids)
  {
    var data := PageViews(page, ids);
    forall i | 0 <= i < |data| ensures ShowsRow(data[i], cars, w, ids) {
      var c := page[i];
      assert c in page;
      assert c in cars && Matches(w, c) && data[i] == Serialize(c, c.id in ids);
    }
    forall i, j | 0 <= i < j < |data| ensures ViewInOrder(o, data[i], data[j]) {
      assert CarLe(o, page[i], page[j]);
      assert page[i] in page && page[j] in page;
    }
  }

  /** What `getCars` answers a caller whose wishlist holds `ids`: the count of
      every selected row and its page count; at most `limit` views, exactly the
      window starting at `(page - 1) * limit`; each one an AVAILABLE selected car
      flagged by wishlist membership, in the requested order. */
  ghost predicate Answers(data: seq<CarView>, p: Pagination, cars: seq<Car>, ids: set<Id>, q: ListingQuery)
    requires q.page >= 1 && q.limit >= 1
  {
    var w := BuildWhere(q);
    var total := |Matching(cars, w)|;
    var skip := SkipOf(q);
    && p == Pagination(total, q.page, q.limit, PageCount(total, q.limit))
    && |data| <= q.limit
    && |data| == (if skip >= total then 0 else if total - skip < q.limit then total - skip else q.limit)
    && (forall i :: 0 <= i < |data| ==> data[i].status == AVAILABLE)
    && (forall i :: 0 <= i < |data| ==> data[i].wishlisted == Flag(data[i].id in ids))
    && PageShows(data, cars, w, OrderOf(q.sortBy), ids)
    && exists ranked :: RanksMatches(ranked, cars, w, OrderOf(q.sortBy))
         && data == PageViews(Window(ranked, skip, q.limit), ids)
  }

  /** `ranked` is an ordering of every selected row, each once, as `orderBy`
      asks; rows the order ties may come in any order. */
  ghost predicate RanksMatches(ranked: seq<Car>, cars: seq<Car>, w: Where, o: CarOrder) {
    SortedBy(ranked, CarOrderLe(o)) && multiset(ranked) == multiset(Matching(cars, w))
  }

  /** The rows of one page, ranked and windowed. */
  function PageRows(cars: seq<Car>, q: ListingQuery): (page: seq<Car>)
    requires q.page >= 1 && q.limit >= 1
  {
    var ranked := SortBy(Matching(cars, BuildWhere(q)), CarOrderLe(OrderOf(q.sortBy)));
    Window(ranked, SkipOf(q), q.limit)
  }

  function PageViews(page: seq<Car>, ids: set<Id>): (data: seq<CarView>)
    ensures |data| == |page|
    ensures forall i :: 0 <= i < |page| ==> data[i] == Serialize(page[i], page[i].id in ids)
  {
    seq(|page|, i requires 0 <= i < |page| => Serialize(page[i], page[i].id in ids))
  }

  lemma PageAnswers(cars: seq<Car>, ids: set<Id>, q: ListingQuery)
    requires q.page >= 1 && q.limit >= 1
    ensures
      var total := |Matching(cars, BuildWhere(q))|;
      Answers(PageViews(PageRows(cars, q), ids), Pagination(total, q.page, q.limit, PageCount(total, q.limit)), cars, ids, q)
  {
    var w := BuildWhere(q);
    var o := OrderOf(q.sortBy);
    var skip := SkipOf(q);
    var total := |Matching(cars, w)|;
    WindowShows(cars, w, o, ids, skip, q.limit);
    var data := PageViews(PageRows(cars, q), ids);
    var ranked := SortBy(Matching(cars, w), CarOrderLe(o));
    assert RanksMatches(ranked, cars, w, o);
    assert data == PageViews(Window(ranked, skip, q.limit), ids);
  }

  /** `(page - 1) * limit`, never negative for `page >= 1`. */
  function SkipOf(q: ListingQuery): (skip: nat)
    requires q.page >= 1 && q.limit >= 1
    ensures skip == (q.page - 1) * q.limit
  {
    (q.page - 1) * q.limit
  }

  lemma WindowShows(cars: seq<Car>, w: Where, o: CarOrder, ids: set<Id>, skip: nat, limit: nat)
    ensures
      var total := |Matching(cars, w)|;
      var data := PageViews(Window(SortBy(Matching(cars, w), CarOrderLe(o)), skip, limit), ids);
      && |data| <= limit
      && |data| == (if skip >= total then 0 else if total - skip < limit then total - skip else limit)
      && (forall i :: 0 <= i < |data| ==> data[i].status == AVAILABLE)
      && (forall i :: 0 <= i < |data| ==> data[i].wishlisted == Flag(data[i].id in ids))
      && PageShows(data, cars, w, o, ids)
  {
    var matching := Matching(cars, w);
    var ranked := SortBy(matching, CarOrderLe(o));
    var page := Window(ranked, skip, limit);
    forall c | c in page ensures c in cars && Matches(w, c) {
      assert c in multiset(ranked);
    }
    WindowSorted(ranked, skip, limit, CarOrderLe(o));
    ViewsOfPage(page, cars, w, o, ids);
    var data := PageViews(page, ids);
    forall i | 0 <= i < |data| ensures data[i].status == AVAILABLE {
      assert page[i] in page;
    }
  }

  /** `getCars`. Only a caller with a store row gets an answer: the return
      statement sits inside `if (dbUser)`, and otherwise the function resolves
      to `undefined`. */
  function GetCars(db: Db, caller: Option<string>, q: ListingQuery): (r: ListingPage)
    reads db
    requires q.page >= 1 && q.limit >= 1
    ensures r.Undefined? <==> db.CallerUser(caller).None?
    ensures r.Listing? ==>
      Answers(r.data, r.pagination, db.cars, SavedCarIds(db.saved, db.CallerUser(caller).value.id), q)
  {
    match db.CallerUser(caller)
    case None => Undefined
    case Some(user) =>
      var total := |Matching(db.cars, BuildWhere(q))|;
      var ids := SavedCarIds(db.saved, user.id);
      PageAnswers(db.cars, ids, q);
      Listing(PageViews(PageRows(db.cars, q), ids), Pagination(total, q.page, q.limit, PageCount(total, q.limit)))
  }

  // ---------------------------------------------------------------------------
  // toggleSavedCars
  // ---------------------------------------------------------------------------

  predicate HasPair(saved: seq<SavedCar>, userId: Id, carId: Id) {
    exists s :: s in saved && s.userId == userId && s.carId == carId
  }

  function Pairs(saved: seq<SavedCar>): set<(Id, Id)> {
    set s | s in saved :: (s.userId, s.carId)
  }

  /** `db.userSavedCar.delete` on the key (userId, carId). */
  function RemovePair(saved: seq<SavedCar>, userId: Id, carId: Id): (r: seq<SavedCar>)
    ensures forall s :: s in r <==> s in saved && !(s.userId == userId && s.carId == carId)
    ensures |r| <= |saved|
  {
    if saved == [] then []
    else if saved[0].userId == userId && saved[0].carId == carId then RemovePair(saved[1..], userId, carId)
    else [saved[0]] + RemovePair(saved[1..], userId, carId)
  }

  /** The wishlist table after one toggle of (userId, carId). */
  function ToggleRows(saved: seq<SavedCar>, userId: Id, carId: Id, now: int): seq<SavedCar> {
    if HasPair(saved, userId, carId) then RemovePair(saved, userId, carId)
    else saved + [SavedCar(userId, carId, now)]
  }

  /** A toggle flips the one pair it names and leaves every other pair alone. */
  lemma ToggleFlipsOnePair(saved: seq<SavedCar>, userId: Id, carId: Id, now: int)
    ensures HasPair(ToggleRows(saved, userId, carId, now), userId, carId) == !HasPair(saved, userId, carId)
    ensures Pairs(ToggleRows(saved, userId, carId, now)) ==
      if HasPair(saved, userId, carId) then Pairs(saved) - {(userId, carId)}
      else Pairs(saved) + {(userId, carId)}
  {
    var r := ToggleRows(saved, userId, carId, now);
    if HasPair(saved, userId, carId) {
      forall p | p in Pairs(saved) - {(userId, carId)} ensures p in Pairs(r) {
        var s :| s in saved && (s.userId, s.carId) == p;
        assert s in r;
      }
    } else {
      assert SavedCar(userId, carId, now) in r;
      forall p | p in Pairs(saved) ensures p in Pairs(r) {
        var s :| s in saved && (s.userId, s.carId) == p;
        assert s in r;
      }
    }
  }

  lemma {:induction false} RemoveAbsentPair(saved: seq<SavedCar>, userId: Id, carId: Id)
    requires !HasPair(saved, userId, carId)
    ensures RemovePair(saved, userId, carId) == saved
  {
    if saved != [] {
      assert saved[0] in saved;
      assert !HasPair(saved[1..], userId, carId) by {
        forall s | s in saved[1..] ensures !(s.userId == userId && s.carId == carId) {
          assert s in saved;
        }
      }
      RemoveAbsentPair(saved[1..], userId, carId);
      assert saved == [saved[0]] + saved[1..];
    }
  }

  lemma {:induction false} RemoveAfterAppend(saved: seq<SavedCar>, x: SavedCar)
    requires !HasPair(saved, x.userId, x.carId)
    ensures RemovePair(saved + [x], x.userId, x.carId) == saved
  {
    if saved == [] {
      assert [] + [x] == [x];
    } else {
      assert saved[0] in saved;
      assert !HasPair(saved[1..], x.userId, x.carId) by {
        forall s | s in saved[1..] ensures !(s.userId == x.userId && s.carId == x.carId) {
          assert s in saved;
        }
      }
      assert (saved + [x])[1..] == saved[1..] + [x];
      RemoveAfterAppend(saved[1..], x);
      assert saved == [saved[0]] + saved[1..];
    }
  }

  /** Two toggles of the same pair restore the saved pairs; when the pair was
      not saved they restore the table row for row. */
  lemma ToggleTwiceRestores(saved: seq<SavedCar>, userId: Id, carId: Id, t1: int, t2: int)
    ensures Pairs(ToggleRows(ToggleRows(saved, userId, carId, t1), userId, carId, t2)) == Pairs(saved)
    ensures !HasPair(saved, userId, carId) ==>
      ToggleRows(ToggleRows(saved, userId, carId, t1), userId, carId, t2) == saved
  {
    var once := ToggleRows(saved, userId, carId, t1);
    ToggleFlipsOnePair(saved, userId, carId, t1);
    ToggleFlipsOnePair(once, userId, carId, t2);
    if !HasPair(saved, userId, carId) {
      assert once == saved + [SavedCar(userId, carId, t1)];
      RemoveAfterAppend(saved, SavedCar(userId, carId, t1));
    } else {
      assert (userId, carId) in Pairs(saved) by {
        var s :| s in saved && s.userId == userId && s.carId == carId;
      }
    }
  }

  datatype Toggled = Toggled(saved: bool, message: string)

  const TOGGLE_ERROR := "Error toggling the saved car:"

  /** `toggleSavedCars(carId)`: removes the caller's wishlist entry for the car if
      there is one, adds it otherwise, and reports which. Only the wishlist
      table changes, and only on the success path. */
  method ToggleSavedCar(db: Db, caller: Option<string>, carId: Id, now: int) returns (r: Reply<Toggled>)
    requires db.Valid()
    modifies db
    ensures db.Valid()
    ensures db.users == old(db.users) && db.cars == old(db.cars) && db.bookings == old(db.bookings)
    ensures db.dealerships == old(db.dealerships) && db.hours == old(db.hours)
    ensures caller.None? ==> r == Raise(TOGGLE_ERROR + "Unauthorized")
    ensures caller.Some? && old(db.CallerUser(caller)).None? ==> r == Raise(TOGGLE_ERROR + "User not found")
    ensures old(db.CallerUser(caller)).Some? && carId !in CarIds(old(db.cars)) ==>
      r == Fail("car does not exist")
    ensures !r.Ok? ==> db.saved == old(db.saved)
    ensures r.Ok? <==> old(db.CallerUser(caller)).Some? && carId in CarIds(old(db.cars))
    ensures r.Ok? ==>
      var userId := old(db.CallerUser(caller)).value.id;
      && db.saved == ToggleRows(old(db.saved), userId, carId, now)
      && r.data.saved == !HasPair(old(db.saved), userId, carId)
  {
    if caller.None? {
      return Raise(TOGGLE_ERROR + "Unauthorized");
    }
    var user := db.CallerUser(caller);
    if user.None? {
      return Raise(TOGGLE_ERROR + "User not found");
    }
    var car := CarById(db.cars, carId);
    if car.None? {
      return Fail("car does not exist");
    }
    var userId := user.value.id;
    assert userId in UserIds(db.users);
    if HasPair(db.saved, userId, carId) {
      db.saved := RemovePair(db.saved, userId, carId);
      r := Ok(Toggled(false, "car removed from favorites"));
      assert SavedKeyed(db.saved) by {
        SubsequenceKeepsKeys(old(db.saved), userId, carId);
      }
    } else {
      var row := SavedCar(userId, carId, now);
      db.saved := db.saved + [row];
      r := Ok(Toggled(true, "Car added to favorites"));
    }
  }

  lemma {:induction false} SubsequenceKeepsKeys(saved: seq<SavedCar>, userId: Id, carId: Id)
    requires SavedKeyed(saved)
    ensures SavedKeyed(RemovePair(saved, userId, carId))
  {
    if saved != [] {
      assert SavedKeyed(saved[1..]) by {
        forall i, j | 0 <= i < j < |saved[1..]|
          ensures saved[1..][i].userId != saved[1..][j].userId || saved[1..][i].carId != saved[1..][j].carId
        {
          assert saved[1..][i] == saved[i + 1] && saved[1..][j] == saved[j + 1];
        }
      }
      SubsequenceKeepsKeys(saved[1..], userId, carId);
      var rest := RemovePair(saved[1..], userId, carId);
      forall s | s in rest ensures s.userId != saved[0].userId || s.carId != saved[0].carId {
        var k :| 0 <= k < |saved[1..]| && saved[1..][k] == s;
        assert saved[k + 1] == s;
      }
    }
  }

  // ---------------------------------------------------------------------------
  // getCarFilters
  // ---------------------------------------------------------------------------

  datatype Column = MakeColumn | BodyTypeColumn | FuelTypeColumn | TransmissionColumn

  function ColumnOf(c: Car, col: Column): string {
    match col
    case MakeColumn => c.make
    case BodyTypeColumn => c.bodyType
    case FuelTypeColumn => c.fuelType
    case TransmissionColumn => c.transmission
  }

  predicate StrictlyAscending(s: seq<string>) {
    forall i, j :: 0 <= i < j < |s| ==> StrLe(s[i], s[j]) && s[i] != s[j]
  }

  /** Adds `x` to an ascending list of distinct texts, keeping it so. */
  function InsertDistinct(x: string, s: seq<string>): (r: seq<string>)
    requires StrictlyAscending(s)
    ensures StrictlyAscending(r)
    ensures forall y :: y in r <==> y in s || y == x
  {
    if s == [] then [x]
    else if x == s[0] then s
    else if StrLe(x, s[0]) then
      assert forall k :: 0 <= k < |s| ==> StrLe(x, s[k]) && x != s[k] by {
        forall k | 0 <= k < |s| ensures StrLe(x, s[k]) && x != s[k] {
          if k > 0 {
            StrLeTransitive(x, s[0], s[k]);
            if x == s[k] { StrLeAntisymmetric(s[0], s[k]); }
          }
        }
      }
      [x] + s
    else
      var rest := InsertDistinct(x, s[1..]);
      StrLeTotal(x, s[0]);
      assert forall k :: 0 <= k < |rest| ==> StrLe(s[0], rest[k]) && s[0] != rest[k] by {
        forall k | 0 <= k < |rest| ensures StrLe(s[0], rest[k]) && s[0] != rest[k] {
          assert rest[k] in rest;
          if rest[k] != x {
            var j :| 0 <= j < |s[1..]| && s[1..][j] == rest[k];
            assert s[j + 1] == rest[k];
          }
        }
      }
      [s[0]] + rest
  }

  /** Prisma's `distinct` with `orderBy: 'asc'` on one text column. */
  function DistinctAscending(values: seq<string>): (r: seq<string>)
    ensures StrictlyAscending(r)
    ensures forall y :: y in r <==> y in values
  {
    if values == [] then []
    else
      var rest := DistinctAscending(values[1..]);
      assert values == [values[0]] + values[1..];
      InsertDistinct(values[0], rest)
  }

  /** The column's values over the AVAILABLE cars, in store order. */
  function AvailableValues(cars: seq<Car>, col: Column): (r: seq<string>)
    ensures forall v :: v in r <==> exists c :: c in cars && c.status == AVAILABLE && ColumnOf(c, col) == v
  {
    if cars == [] then []
    else
      var rest := AvailableValues(cars[1..], col);
      assert cars == [cars[0]] + cars[1..];
      if cars[0].status == AVAILABLE then [ColumnOf(cars[0], col)] + rest else rest
  }

  predicate PricedAvailable(c: Car) {
    c.status == AVAILABLE && c.price.Some?
  }

  /** `_min.price` over the AVAILABLE cars (a NULL price is not aggregated). */
  function MinPrice(cars: seq<Car>): (r: Option<real>)
    ensures r.None? <==> forall c :: c in cars ==> !PricedAvailable(c)
    ensures r.Some? ==> exists c :: c in cars && PricedAvailable(c) && c.price.value == r.value
    ensures r.Some? ==> forall c :: c in cars && PricedAvailable(c) ==> r.value <= c.price.value
  {
    if cars == [] then None
    else
      var rest := MinPrice(cars[1..]);
      assert cars == [cars[0]] + cars[1..];
      if !PricedAvailable(cars[0]) then rest
      else if rest.None? || cars[0].price.value <= rest.value then Some(cars[0].price.value)
      else rest
  }

  /** `_max.price` over the AVAILABLE cars. */
  function MaxPrice(cars: seq<Car>): (r: Option<real>)
    ensures r.None? <==> forall c :: c in cars ==> !PricedAvailable(c)
    ensures r.Some? ==> exists c :: c in cars && PricedAvailable(c) && c.price.value == r.value
    ensures r.Some? ==> forall c :: c in cars && PricedAvailable(c) ==> c.price.value <= r.value
  {
    if cars == [] then None
    else
      var rest := MaxPrice(cars[1..]);
      assert cars == [cars[0]] + cars[1..];
      if !PricedAvailable(cars[0]) then rest
      else if rest.None? || cars[0].price.value >= rest.value then Some(cars[0].price.value)
      else rest
  }

  datatype PriceRange = PriceRange(min: real, max: real)

  datatype CarFilters = CarFilters(
    makes: seq<string>, bodyTypes: seq<string>, fuelTypes: seq<string>,
    transmissions: seq<string>, priceRange: PriceRange)

  /** The list holds each value the column takes among AVAILABLE cars, once, ascending. */
  ghost predicate ListsColumn(list: seq<string>, cars: seq<Car>, col: Column) {
    && StrictlyAscending(list)
    && forall v :: v in list <==> exists c :: c in cars && c.status == AVAILABLE && ColumnOf(c, col) == v
  }

  function FilterList(cars: seq<Car>, col: Column): (r: seq<string>)
    ensures ListsColumn(r, cars, col)
  {
    DistinctAscending(AvailableValues(cars, col))
  }

  /** `getCarFilters`: the filter options over the AVAILABLE cars. The price
      range falls back to 0 and 100000 when there is no price to aggregate. */
  function GetCarFilters(db: Db): (r: CarFilters)
    reads db
    ensures ListsColumn(r.makes, db.cars, MakeColumn)
    ensures ListsColumn(r.bodyTypes, db.cars, BodyTypeColumn)
    ensures ListsColumn(r.fuelTypes, db.cars, FuelTypeColumn)
    ensures ListsColumn(r.transmissions, db.cars, TransmissionColumn)
    ensures (forall c :: c in db.cars ==> !PricedAvailable(c)) ==> r.priceRange == PriceRange(0.0, 100000.0)
    ensures forall c :: c in db.cars && PricedAvailable(c) ==>
      r.priceRange.min <= c.price.value <= r.priceRange.max
    ensures (exists c :: c in db.cars && PricedAvailable(c)) ==>
      (exists c :: c in db.cars && PricedAvailable(c) && c.price.value == r.priceRange.min) &&
      (exists c :: c in db.cars && PricedAvailable(c) && c.price.value == r.priceRange.max)
  {
    var lo := MinPrice(db.cars);
    var hi := MaxPrice(db.cars);
    CarFilters(
      FilterList(db.cars, MakeColumn), FilterList(db.cars, BodyTypeColumn),
      FilterList(db.cars, FuelTypeColumn), FilterList(db.cars, TransmissionColumn),
      PriceRange(if lo.Some? then lo.value else 0.0, if hi.Some? then hi.value else 100000.0))
  }

  // ---------------------------------------------------------------------------
  // getSavedCars
  // ---------------------------------------------------------------------------

  function SavedNewestFirstLe(): (le: (SavedCar, SavedCar) -> bool)
    ensures TotalPreorder(le)
    ensures forall a, b :: le(a, b) == (a.savedAt >= b.savedAt)
  {
    (a: SavedCar, b: SavedCar) => a.savedAt >= b.savedAt
  }

  function RowsOf(saved: seq<SavedCar>, userId: Id): (r: seq<SavedCar>)
    ensures forall s :: s in r <==> s in saved && s.userId == userId
  {
    if saved == [] then []
    else if saved[0].userId == userId then [saved[0]] + RowsOf(saved[1..], userId)
    else RowsOf(saved[1..], userId)
  }

  /** The user's wishlist rows, `orderBy: { savedAt: 'desc' }`. */
  function SavedNewestFirst(saved: seq<SavedCar>, userId: Id): (r: seq<SavedCar>)
    ensures multiset(r) == multiset(RowsOf(saved, userId))
    ensures forall i, j :: 0 <= i < j < |r| ==> r[i].savedAt >= r[j].savedAt
  {
    var le := SavedNewestFirstLe();
    var r := SortBy(RowsOf(saved, userId), le);
    assert forall i, j :: 0 <= i < j < |r| ==> le(r[i], r[j]);
    r
  }

  /** `getSavedCars`: the caller's saved cars, most recently saved first. Each is
      serialised with the default flag, so `wishlisted` is false even here. */
  function GetSavedCars(db: Db, caller: Option<string>): (r: Reply<seq<CarView>>)
    reads db
    requires db.Valid()
    ensures caller.None? ==> r == Fail("Unauthorized")
    ensures caller.Some? && db.CallerUser(caller).None? ==> r == Fail("User not found")
    ensures db.CallerUser(caller).Some? ==>
      var rows := SavedNewestFirst(db.saved, db.CallerUser(caller).value.id);
      && r.Ok? && |r.data| == |rows|
      && forall i :: 0 <= i < |r.data| ==>
           && r.data[i].id == rows[i].carId
           && r.data[i].wishlisted == Flag(false)
           && exists c :: c in db.cars && r.data[i] == Serialize(c, false)
  {
    if caller.None? then Fail("Unauthorized")
    else match db.CallerUser(caller)
      case None => Fail("User not found")
      case Some(user) =>
        var rows := SavedNewestFirst(db.saved, user.id);
        SavedRowsReferToCars(rows, db.saved, db.users, db.cars, user.id);
        Ok(SavedViews(rows, db.cars))
  }

  /** The wishlist rows of a user, in any order, point to existing cars. */
  lemma SavedRowsReferToCars(rows: seq<SavedCar>, saved: seq<SavedCar>, users: seq<User>, cars: seq<Car>, userId: Id)
    requires SavedRefs(saved, users, cars)
    requires multiset(rows) == multiset(RowsOf(saved, userId))
    ensures forall i :: 0 <= i < |rows| ==> rows[i].carId in CarIds(cars)
  {
    forall i | 0 <= i < |rows| ensures rows[i].carId in CarIds(cars) {
      assert rows[i] in multiset(RowsOf(saved, userId));
    }
  }

  /** `savedCars.map((saved) => serializeCarData(saved.car))`. */
  function SavedViews(rows: seq<SavedCar>, cars: seq<Car>): (data: seq<CarView>)
    requires forall i :: 0 <= i < |rows| ==> rows[i].carId in CarIds(cars)
    ensures |data| == |rows|
    ensures forall i :: 0 <= i < |rows| ==>
      && data[i].id == rows[i].carId
      && data[i].wishlisted == Flag(false)
      && exists c :: c in cars && data[i] == Serialize(c, false)
  {
    seq(|rows|, i requires 0 <= i < |rows| => SerializeDefault(CarOf(cars, rows[i].carId)))
  }
}
