/** actions/cars.js: the admin's car inventory — reading a car photo with the
    generative model, adding a car with its uploaded image, listing, deleting
    and updating cars. Image storage is outside the model: an upload's outcome
    and the URL parser arrive as parameters, and the paths handed to storage
    for removal are returned. */
module Cars {
  import opened Common
  import opened Sorting
  import opened Store
  import opened Helper
  import opened CarListing
  import opened AiResponse

  // ---------------------------------------------------------------------------
  // processCarImageWithAI
  // ---------------------------------------------------------------------------

  const GEMINI_ERROR := "Gemini API error:"
  const NO_API_KEY := "Gemini API key is not configured"

  /** `processCarImageWithAI(file)`. A missing key or a failed model call is
      thrown with the `Gemini API error:` prefix; a reply that does not parse,
      is not an object or lacks a required field is reported as a parse
      failure; otherwise the parsed object is the data. */
  function ProcessCarImageWithAI(keyConfigured: bool, reply: ModelReply, parse: string -> Option<Json>): (r: Reply<Json>)
    ensures !keyConfigured ==> r == Raise(GEMINI_ERROR + NO_API_KEY)
    ensures keyConfigured && reply.ModelError? ==> r == Raise(GEMINI_ERROR + reply.message)
    ensures r.Ok? <==>
      (&& keyConfigured && reply.Text? && parse(Clean(reply.text)).Some?
       && parse(Clean(reply.text)).value.JObject?
       && (forall n :: n in REQUIRED ==> HasField(parse(Clean(reply.text)).value.fields, n)))
    ensures r.Ok? ==> r.data == parse(Clean(reply.text)).value
    ensures r.Fail? ==> r.error == PARSE_FAILED
  {
    if !keyConfigured then Raise(GEMINI_ERROR + NO_API_KEY)
    else match reply
      case ModelError(m) => Raise(GEMINI_ERROR + m)
      case Text(t) => CheckCarDetails(parse(Clean(t)))
  }

  // ---------------------------------------------------------------------------
  // addCar
  // ---------------------------------------------------------------------------

  /** The form's `carData`. */
  datatype CarInput = CarInput(
    make: string, model: string, year: int, price: Option<real>,
    mileage: int, color: string, fuelType: string, transmission: string,
    bodyType: string, seats: Option<int>, description: string,
    status: CarStatus, featured: bool)

  /** The outcome of the storage upload of one file. */
  datatype Upload = Uploaded | UploadFailed(message: string)

  /** What `addCar` resolves to: `{ success: true }`, `undefined` when the loop
      ends without a usable image, or a thrown `Error`. */
  datatype AddOutcome = Added | NothingReturned | AddThrew(message: string)

  const ADD_ERROR := "Error adding car: "
  const DATA_URL := "data:image/"

  /** An entry the loop does not skip: non-empty and a data URL of an image. */
  predicate UsableImage(s: string) {
    s != [] && StartsWith(s, DATA_URL)
  }

  /** The index of the first usable image. */
  function FirstUsable(images: seq<string>): (r: Option<nat>)
    ensures r.Some? ==> r.value < |images| && UsableImage(images[r.value])
    ensures r.Some? ==> forall k :: 0 <= k < r.value ==> !UsableImage(images[k])
    ensures r.None? <==> forall k :: 0 <= k < |images| ==> !UsableImage(images[k])
  {
    if images == [] then None
    else if UsableImage(images[0]) then Some(0)
    else match FirstUsable(images[1..])
      case None => None
      case Some(k) => Some(k + 1)
  }

  /** `base64Data.split(',')[1]` exists only when the text holds a comma;
      otherwise `Buffer.from(undefined, 'base64')` throws. */
  predicate HasPayload(s: string) {
    exists k :: 0 <= k < |s| && s[k] == ','
  }

  predicate Alnum(c: char) {
    ('a' <= c <= 'z') || ('A' <= c <= 'Z') || ('0' <= c <= '9')
  }

  predicate AllAlnum(s: string) {
    forall k :: 0 <= k < |s| ==> Alnum(s[k])
  }

  /** The length of the run of letters and digits at the start of `s`. */
  function AlnumRun(s: string): (n: nat)
    ensures n <= |s|
    ensures AllAlnum(s[..n])
    ensures n < |s| ==> !Alnum(s[n])
  {
    if s == [] || !Alnum(s[0]) then 0
    else
      var n := 1 + AlnumRun(s[1..]);
      assert s[..n] == [s[0]] + s[1..][..n - 1];
      n
  }

  /** The subtype matched by `/data:image\/([a-zA-Z0-9]+);/` where the match
      starts at the beginning of `s`. The greedy run must be followed by `;`:
      any shorter run is followed by a letter or digit. */
  function MimeHere(s: string): (r: Option<string>)
    ensures r.Some? ==> |r.value| > 0 && AllAlnum(r.value)
  {
    if !StartsWith(s, DATA_URL) then None
    else
      var t := s[|DATA_URL|..];
      var n := AlnumRun(t);
      if n > 0 && n < |t| && t[n] == ';' then Some(t[..n]) else None
  }

  /** The leftmost match of the pattern anywhere in `s` (`String.match`). */
  function MimeMatch(s: string): (r: Option<string>)
    ensures r.Some? ==> |r.value| > 0 && AllAlnum(r.value)
    decreases |s|
  {
    if MimeHere(s).Some? then MimeHere(s)
    else if s == [] then None
    else MimeMatch(s[1..])
  }

  /** `mimeMatch ? mimeMatch[1] : 'jpeg'`. */
  function Extension(s: string): (e: string)
    ensures |e| > 0 && AllAlnum(e)
    ensures MimeMatch(s).None? ==> e == "jpeg"
  {
    match MimeMatch(s)
    case Some(x) => x
    case None => "jpeg"
  }

  /** A data URL whose header names an alphanumeric subtype gets that subtype
      as its extension. */
  lemma ExtensionOfHeader(ext: string, rest: string)
    requires |ext| > 0 && AllAlnum(ext)
    ensures Extension(DATA_URL + ext + ";" + rest) == ext
  {
    var s := DATA_URL + ext + ";" + rest;
    var t := s[|DATA_URL|..];
    assert StartsWith(s, DATA_URL);
    assert t == ext + ";" + rest;
    AlnumRunOf(ext, ";" + rest);
    assert t[..|ext|] == ext;
    assert t[|ext|] == ';';
    assert MimeHere(s) == Some(ext);
  }

  lemma {:induction false} AlnumRunOf(a: string, b: string)
    requires AllAlnum(a)
    requires b != [] && !Alnum(b[0])
    ensures AlnumRun(a + b) == |a|
  {
    if a != [] {
      assert (a + b)[1..] == a[1..] + b;
      AlnumRunOf(a[1..], b);
    } else {
      assert a + b == b;
    }
  }

  /** `image-${Date.now()}-${i}.${fileExtension}` inside the car's folder. */
  function FilePath(carId: Id, now: nat, i: nat, ext: string): (p: string)
    ensures StartsWith(p, "cars/" + carId + "/image-")
    ensures |p| > |ext| && p[|p| - |ext| - 1..] == "." + ext
  {
    var p := "cars/" + carId + "/" + "image-" + NatToString(now) + "-" + NatToString(i) + "." + ext;
    assert p == ("cars/" + carId + "/image-") + (NatToString(now) + "-" + NatToString(i)) + ("." + ext);
    p
  }

  /** The length of the run of decimal digits `s` starts with. */
  function DigitRun(s: string): (n: nat)
    ensures n <= |s|
    ensures forall k :: 0 <= k < n ==> '0' <= s[k] <= '9'
    ensures n < |s| ==> !('0' <= s[n] <= '9')
  {
    if s == [] || !('0' <= s[0] <= '9') then 0 else 1 + DigitRun(s[1..])
  }

  /** The images of one upload loop get distinct files: the same path comes
      only from the same loop index. */
  lemma FilePathIndex(carId: Id, now: nat, i: nat, j: nat, ext: string)
    requires FilePath(carId, now, i, ext) == FilePath(carId, now, j, ext)
    ensures i == j
  {
    var pre := FilePrefix(carId, now);
    var a := NatToString(i) + ("." + ext);
    var b := NatToString(j) + ("." + ext);
    FilePathSplit(carId, now, i, ext);
    FilePathSplit(carId, now, j, ext);
    assert a == (pre + a)[|pre|..] == (pre + b)[|pre|..] == b;
    DigitRunBeforeDot(NatToString(i), ext);
    DigitRunBeforeDot(NatToString(j), ext);
    assert NatToString(i) == a[..DigitRun(a)] == NatToString(j);
    NatToStringInjective(i, j);
  }

  /** What precedes the loop index in a file path. */
  function FilePrefix(carId: Id, now: nat): string {
    "cars/" + carId + "/" + "image-" + NatToString(now) + "-"
  }

  lemma FilePathSplit(carId: Id, now: nat, i: nat, ext: string)
    ensures FilePath(carId, now, i, ext) == FilePrefix(carId, now) + (NatToString(i) + ("." + ext))
  {
  }

  lemma DigitRunBeforeDot(digits: string, ext: string)
    requires AllDigits(digits)
    ensures DigitRun(digits + ("." + ext)) == |digits|
    ensures (digits + ("." + ext))[..|digits|] == digits
  {
    var s := digits + ("." + ext);
    assert s[|digits|] == '.';
    assert forall k :: 0 <= k < |digits| ==> s[k] == digits[k];
  }

  const BUCKET_PATH := "/storage/v1/object/public/car-images/"

  /** The public URL of an uploaded file under the storage base URL. */
  function PublicUrl(base: string, path: string): string {
    base + BUCKET_PATH + path
  }

  /** The row `db.car.create` writes; the store stamps both timestamps. */
  function NewCar(id: Id, d: CarInput, images: seq<string>, now: int): (c: Car)
    ensures c.id == id && c.images == images && c.createdAt == now
  {
    Car(id, d.make, d.model, d.year, d.price, d.mileage, d.color, d.fuelType,
        d.transmission, d.bodyType, d.seats, d.description, d.status, d.featured,
        images, now, now)
  }

  /** The outcome `addCar` reaches for a signed-in, known caller: the loop
      stops at the first usable image, uploads it and creates the car with
      that one image. */
  function AddResult(images: seq<string>, carId: Id, now: nat, upload: Upload, bufferError: string): AddOutcome {
    match FirstUsable(images)
    case None => NothingReturned
    case Some(k) =>
      if !HasPayload(images[k]) then AddThrew(ADD_ERROR + bufferError)
      else if upload.UploadFailed? then AddThrew(ADD_ERROR + "Failed to upload image: " + upload.message)
      else Added
  }

  /** `addCar({ carData, images })`. `carId` is the fresh identifier `uuidv4`
      gives, `now` the clock reading, `base` the storage base URL, `upload`
      what storage answers, and `bufferError` the message of the error the
      buffer conversion throws for a data URL with no comma. */
  method AddCar(db: Db, caller: Option<string>, input: CarInput, images: seq<string>,
                carId: Id, now: nat, base: string, upload: Upload, bufferError: string)
    returns (r: AddOutcome)
    modifies db
    requires db.Valid()
    requires carId !in CarIds(db.cars)
    ensures db.Valid()
    ensures db.users == old(db.users) && db.saved == old(db.saved) && db.bookings == old(db.bookings)
    ensures db.dealerships == old(db.dealerships) && db.hours == old(db.hours)
    ensures caller.None? ==> r == AddThrew(ADD_ERROR + "Unauthorized")
    ensures caller.Some? && old(db.CallerUser(caller)).None? ==> r == AddThrew(ADD_ERROR + "User not found")
    ensures old(db.CallerUser(caller)).Some? ==> r == AddResult(images, carId, now, upload, bufferError)
    ensures r == Added ==>
      var k := FirstUsable(images).value;
      db.cars == old(db.cars) + [NewCar(carId, input, [PublicUrl(base, FilePath(carId, now, k, Extension(images[k])))], now)]
    ensures r != Added ==> db.cars == old(db.cars)
  {
    if caller.None? {
      return AddThrew(ADD_ERROR + "Unauthorized");
    }
    if db.CallerUser(caller).None? {
      return AddThrew(ADD_ERROR + "User not found");
    }
    var i := 0;
    while i < |images|
      invariant 0 <= i <= |images|
      invariant forall k :: 0 <= k < i ==> !UsableImage(images[k])
    {
      var data := images[i];
      if !UsableImage(data) {
        i := i + 1;
        continue;
      }
      assert FirstUsable(images) == Some(i);
      if !HasPayload(data) {
        return AddThrew(ADD_ERROR + bufferError);
      }
      var ext := Extension(data);
      var path := FilePath(carId, now, i, ext);
      if upload.UploadFailed? {
        return AddThrew(ADD_ERROR + "Failed to upload image: " + upload.message);
      }
      var urls := [PublicUrl(base, path)];
      var car := NewCar(carId, input, urls, now);
      NewCarKeepsValid(db.users, db.cars, db.saved, db.bookings, car);
      db.cars := db.cars + [car];
      return Added;
    }
    return NothingReturned;
  }

  /** A car with a fresh id keeps every key unique and every reference good. */
  lemma NewCarKeepsValid(users: seq<User>, cars: seq<Car>, saved: seq<SavedCar>, bookings: seq<Booking>, car: Car)
    requires WellFormed(users, cars, saved, bookings)
    requires car.id !in CarIds(cars)
    ensures WellFormed(users, cars + [car], saved, bookings)
    ensures CarIds(cars + [car]) == CarIds(cars) + {car.id}
  {
    var r := cars + [car];
    forall i, j | 0 <= i < j < |r| ensures r[i].id != r[j].id {
      if j == |cars| {
        assert r[i] in cars;
      } else {
        assert r[i] == cars[i] && r[j] == cars[j];
      }
    }
  }

  // ---------------------------------------------------------------------------
  // getCars (admin)
  // ---------------------------------------------------------------------------

  /** The intended search: make, model or colour contains the text, ignoring
      case; an empty text matches every car. */
  predicate SearchHit(c: Car, search: string) {
    search == [] || ContainsCI(c.make, search) || ContainsCI(c.model, search) || ContainsCI(c.color, search)
  }

  function SearchRows(cars: seq<Car>, search: string): (r: seq<Car>)
    ensures forall c :: c in r <==> c in cars && SearchHit(c, search)
    ensures |r| <= |cars|
  {
    if cars == [] then []
    else
      assert cars == [cars[0]] + cars[1..];
      var rest := SearchRows(cars[1..], search);
      if SearchHit(cars[0], search) then [cars[0]] + rest else rest
  }

  /** `orderBy: { createdAt: 'desc' }`. */
  function NewestFirst(rows: seq<Car>): (r: seq<Car>)
    ensures multiset(r) == multiset(rows)
    ensures forall i, j :: 0 <= i < j < |r| ==> r[i].createdAt >= r[j].createdAt
  {
    var le := CarOrderLe(Newest);
    var r := SortBy(rows, le);
    assert forall i, j :: 0 <= i < j < |r| ==> le(r[i], r[j]);
    r
  }

  /** `data` shows exactly the cars of `rows`, newest first, each serialised
      with the default flag. */
  ghost predicate ListsNewest(data: seq<CarView>, rows: seq<Car>) {
    && |data| == |rows|
    && (forall i :: 0 <= i < |data| ==> ShowsCar(data[i], rows))
    && (forall i, j :: 0 <= i < j < |data| ==> data[i].createdAt.instant >= data[j].createdAt.instant)
    && (forall c :: c in rows ==> exists i :: 0 <= i < |data| && data[i] == SerializeDefault(c))
  }

  ghost predicate ShowsCar(v: CarView, rows: seq<Car>) {
    exists c :: c in rows && v == SerializeDefault(c)
  }

  /** The views of the sorted rows list the rows. */
  lemma NewestViewsList(rows: seq<Car>)
    ensures ListsNewest(SerializeAll(NewestFirst(rows)), rows)
  {
    var sorted := NewestFirst(rows);
    ViewsShowRows(sorted, rows);
    RowsHaveViews(sorted, rows);
  }

  lemma ViewsShowRows(sorted: seq<Car>, rows: seq<Car>)
    requires multiset(sorted) == multiset(rows)
    ensures forall i :: 0 <= i < |sorted| ==> ShowsCar(SerializeAll(sorted)[i], rows)
  {
    var data := SerializeAll(sorted);
    forall i | 0 <= i < |data| ensures ShowsCar(data[i], rows) {
      assert sorted[i] in multiset(rows);
    }
  }

  lemma RowsHaveViews(sorted: seq<Car>, rows: seq<Car>)
    requires multiset(sorted) == multiset(rows)
    ensures forall c :: c in rows ==> exists i :: 0 <= i < |sorted| && SerializeAll(sorted)[i] == SerializeDefault(c)
  {
    var data := SerializeAll(sorted);
    forall c | c in rows ensures exists i :: 0 <= i < |sorted| && data[i] == SerializeDefault(c) {
      assert c in multiset(sorted);
      var i :| 0 <= i < |sorted| && sorted[i] == c;
      assert data[i] == SerializeDefault(c);
    }
  }

  /** `getCars(search)` of the admin inventory: any signed-in user with a store
      row gets the cars matching the search, newest first. */
  function GetCarsAdmin(db: Db, caller: Option<string>, search: string): (r: Reply<seq<CarView>>)
    reads db
    ensures caller.None? ==> r == Fail("Unauthorized")
    ensures caller.Some? && db.CallerUser(caller).None? ==> r == Fail("User not found")
    ensures db.CallerUser(caller).Some? ==> r.Ok? && ListsNewest(r.data, SearchRows(db.cars, search))
  {
    if caller.None? then Fail("Unauthorized")
    else if db.CallerUser(caller).None? then Fail("User not found")
    else
      var rows := SearchRows(db.cars, search);
      NewestViewsList(rows);
      Ok(SerializeAll(NewestFirst(rows)))
  }

  /** `getCars(search)` as it is written: the filter key is spelt `contain`,
      which the store's query validation refuses, so any non-empty search is
      caught and answered with the store's message `rejection`. Without a
      search every car is listed, each flagged with its row index. */
  function GetCarsAdminAsWritten(db: Db, caller: Option<string>, search: string, rejection: string)
    : (r: Reply<seq<CarView>>)
    reads db
    ensures caller.None? ==> r == Fail("Unauthorized")
    ensures caller.Some? && db.CallerUser(caller).None? ==> r == Fail("User not found")
    ensures db.CallerUser(caller).Some? && search != [] ==> r == Fail(rejection)
    ensures db.CallerUser(caller).Some? && search == [] ==>
      && r.Ok? && |r.data| == |db.cars|
      && forall i :: 1 <= i < |r.data| ==> Truthy(r.data[i].wishlisted)
  {
    if caller.None? then Fail("Unauthorized")
    else if db.CallerUser(caller).None? then Fail("User not found")
    else if search != [] then Fail(rejection)
    else
      var sorted := NewestFirst(db.cars);
      MapSerializeFlagsLaterRows(sorted);
      Ok(MapSerialize(sorted))
  }

  /** A search that matches a car lists it in the intended action and fails
      in the action as written. */
  lemma AdminSearchFailsAsWritten(db: Db, caller: Option<string>, search: string, rejection: string, c: Car)
    requires db.CallerUser(caller).Some?
    requires c in db.cars && search != [] && SearchHit(c, search)
    ensures !GetCarsAdminAsWritten(db, caller, search, rejection).Ok?
    ensures GetCarsAdmin(db, caller, search).Ok?
    ensures SerializeDefault(c) in GetCarsAdmin(db, caller, search).data
  {
    AdminListMatchesSearch(db, caller, search, SerializeDefault(c));
  }

  /** Every car the admin list shows matches the search, and every matching
      car is shown. */
  lemma AdminListMatchesSearch(db: Db, caller: Option<string>, search: string, v: CarView)
    requires db.CallerUser(caller).Some?
    ensures GetCarsAdmin(db, caller, search).Ok?
    ensures v in GetCarsAdmin(db, caller, search).data <==>
      exists c :: c in db.cars && SearchHit(c, search) && v == SerializeDefault(c)
  {
    var data := GetCarsAdmin(db, caller, search).data;
    var rows := SearchRows(db.cars, search);
    if v in data {
      var i :| 0 <= i < |data| && data[i] == v;
      assert ShowsCar(data[i], rows);
    }
    if exists c :: c in db.cars && SearchHit(c, search) && v == SerializeDefault(c) {
      var c :| c in db.cars && SearchHit(c, search) && v == SerializeDefault(c);
      assert c in rows;
      var i :| 0 <= i < |data| && data[i] == SerializeDefault(c);
    }
  }

  // ---------------------------------------------------------------------------
  // deleteCars
  // ---------------------------------------------------------------------------

  const BUCKET_MARK := "/car-images/"

  /** The text after the leftmost `/car-images/` in `p`. */
  function AfterMark(p: string): (r: Option<string>)
    ensures r.Some? <==> Contains(p, BUCKET_MARK)
    ensures r.Some? ==> |r.value| <= |p| && p[|p| - |r.value|..] == r.value
    decreases |p|
  {
    if StartsWith(p, BUCKET_MARK) then Some(p[|BUCKET_MARK|..])
    else if p == [] then None
    else
      var r := AfterMark(p[1..]);
      assert r.Some? ==> p[1..][|p[1..]| - |r.value|..] == p[|p| - |r.value|..];
      r
  }

  /** The characters `.` in a regular expression does not match. */
  predicate LineTerminator(c: char) {
    c == '\n' || c == '\r' || c as int == 0x2028 || c as int == 0x2029
  }

  predicate NoLineTerminator(s: string) {
    forall c :: c in s ==> !LineTerminator(c)
  }

  /** `(.*)`: the longest prefix with no line terminator. */
  function RestOfLine(s: string): (r: string)
    ensures StartsWith(s, r) && NoLineTerminator(r)
    ensures NoLineTerminator(s) ==> r == s
  {
    if s == [] || LineTerminator(s[0]) then []
    else
      var rest := RestOfLine(s[1..]);
      assert s == [s[0]] + s[1..];
      [s[0]] + rest
  }

  /** The storage path `url.pathname.match(/\/car-images\/(.*)/)` captures. */
  function StoragePath(pathname: string): (r: Option<string>)
    ensures r.Some? <==> Contains(pathname, BUCKET_MARK)
  {
    match AfterMark(pathname)
    case None => None
    case Some(rest) => Some(RestOfLine(rest))
  }

  /** The paths handed to storage for a car's image URLs: `pathname` is the
      URL parser (None when `new URL` throws, which abandons the whole
      removal); otherwise each URL is mapped to its capture, and URLs without
      a capture, or with an empty one, are dropped by `.filter(Boolean)`. */
  function StoragePaths(images: seq<string>, pathname: string -> Option<string>): (r: Option<seq<string>>)
    ensures r.Some? <==> forall u :: u in images ==> pathname(u).Some?
    ensures r.Some? ==> |r.value| <= |images|
  {
    if forall u :: u in images ==> pathname(u).Some? then Some(Captures(images, pathname)) else None
  }

  /** The paths one URL contributes: its capture, unless there is none or it is empty. */
  function PathOf(path: string): (r: seq<string>)
    ensures |r| <= 1
  {
    var p := StoragePath(path);
    if p.Some? && p.value != [] then [p.value] else []
  }

  /** The paths one URL contributes once parsed. */
  function PathOfUrl(u: string, pathname: string -> Option<string>): (r: seq<string>)
    ensures |r| <= 1
  {
    match pathname(u)
    case None => []
    case Some(path) => PathOf(path)
  }

  /** `.map(...).filter(Boolean)`, once every URL has parsed. */
  function Captures(images: seq<string>, pathname: string -> Option<string>): (r: seq<string>)
    ensures |r| <= |images|
  {
    var f := (u: string) => PathOfUrl(u, pathname);
    ConcatMapShort(images, f);
    ConcatMap(images, f)
  }

  /** Each element mapped to a list, the lists joined in order. */
  function ConcatMap(s: seq<string>, f: string -> seq<string>): seq<string> {
    if s == [] then [] else f(s[0]) + ConcatMap(s[1..], f)
  }

  lemma {:induction false} ConcatMapShort(s: seq<string>, f: string -> seq<string>)
    requires forall x :: |f(x)| <= 1
    ensures |ConcatMap(s, f)| <= |s|
  {
    if s != [] {
      ConcatMapShort(s[1..], f);
    }
  }

  lemma {:induction false} ConcatMapAppend(a: seq<string>, b: seq<string>, f: string -> seq<string>)
    ensures ConcatMap(a + b, f) == ConcatMap(a, f) + ConcatMap(b, f)
  {
    if a == [] {
      assert a + b == b;
    } else {
      assert (a + b)[0] == a[0];
      assert (a + b)[1..] == a[1..] + b;
      ConcatMapAppend(a[1..], b, f);
      ConcatAssoc(f(a[0]), ConcatMap(a[1..], f), ConcatMap(b, f));
    }
  }

  /** Some URL of `images` has a path from which the pattern captures `p`. */
  ghost predicate Extracted(images: seq<string>, pathname: string -> Option<string>, p: string) {
    exists u :: u in images && pathname(u).Some? && StoragePath(pathname(u).value) == Some(p)
  }

  /** The paths are exactly the non-empty captures of the URLs' paths. */
  lemma StoragePathsContents(images: seq<string>, pathname: string -> Option<string>)
    requires StoragePaths(images, pathname).Some?
    ensures forall p :: p in StoragePaths(images, pathname).value <==> p != [] && Extracted(images, pathname, p)
  {
    CapturesContents(images, pathname);
  }

  lemma {:induction false} CapturesContents(images: seq<string>, pathname: string -> Option<string>)
    ensures forall p :: p in Captures(images, pathname) <==> p != [] && Extracted(images, pathname, p)
  {
    if images != [] {
      assert images == [images[0]] + images[1..];
      CapturesCons(images, pathname);
      CapturesContents(images[1..], pathname);
      forall p | Extracted(images[1..], pathname, p) ensures Extracted(images, pathname, p) {
        var u :| u in images[1..] && pathname(u).Some? && StoragePath(pathname(u).value) == Some(p);
        assert u in images;
      }
      forall p | Extracted(images, pathname, p) && !Extracted(images[1..], pathname, p)
        ensures StoragePath(pathname(images[0]).value) == Some(p)
      {
        var u :| u in images && pathname(u).Some? && StoragePath(pathname(u).value) == Some(p);
        if u != images[0] {
          assert u in images[1..];
        }
      }
    }
  }

  /** The extraction keeps the order of the URLs: the paths of a concatenation
      are the paths of its parts, one after the other. */
  lemma StoragePathsAppend(a: seq<string>, b: seq<string>, pathname: string -> Option<string>)
    ensures StoragePaths(a + b, pathname).Some? ==>
      && StoragePaths(a, pathname).Some? && StoragePaths(b, pathname).Some?
      && StoragePaths(a + b, pathname).value == StoragePaths(a, pathname).value + StoragePaths(b, pathname).value
  {
    if StoragePaths(a + b, pathname).Some? {
      assert forall u :: u in a ==> u in a + b;
      assert forall u :: u in b ==> u in a + b;
    }
    CapturesAppend(a, b, pathname);
  }

  lemma CapturesCons(images: seq<string>, pathname: string -> Option<string>)
    requires images != []
    ensures Captures(images, pathname) == PathOfUrl(images[0], pathname) + Captures(images[1..], pathname)
  {
  }

  lemma CapturesAppend(a: seq<string>, b: seq<string>, pathname: string -> Option<string>)
    ensures Captures(a + b, pathname) == Captures(a, pathname) + Captures(b, pathname)
  {
    ConcatMapAppend(a, b, (u: string) => PathOfUrl(u, pathname));
  }

  lemma ConcatAssoc(p: seq<string>, x: seq<string>, y: seq<string>)
    ensures p + (x + y) == (p + x) + y
  {
  }

  /** A run of characters with no slash-then-`c` start, so no `/car-images/`
      can begin inside it. */
  predicate MarkFreeLead(a: string) {
    a == [] || ((a[0] != '/' || (|a| >= 2 && a[1] != 'c')) && MarkFreeLead(a[1..]))
  }

  lemma {:induction false} AfterMarkSkips(a: string, b: string)
    requires MarkFreeLead(a)
    ensures AfterMark(a + b) == AfterMark(b)
  {
    if a != [] {
      assert !StartsWith(a + b, BUCKET_MARK) by {
        assert (a + b)[0] == a[0];
        if |a| >= 2 { assert (a + b)[1] == a[1]; }
      }
      assert (a + b)[1..] == a[1..] + b;
      AfterMarkSkips(a[1..], b);
    } else {
      assert a + b == b;
    }
  }

  /** The file path of an uploaded image is recovered from the path of its
      public URL, so deleting the car removes exactly the file `addCar`
      uploaded. */
  lemma UploadedPathRecovered(carId: Id, now: nat, i: nat, ext: string)
    requires NoLineTerminator(carId) && AllAlnum(ext)
    ensures StoragePath(BUCKET_PATH + FilePath(carId, now, i, ext)) == Some(FilePath(carId, now, i, ext))
  {
    var fp := FilePath(carId, now, i, ext);
    AfterBucketPath(fp);
    FilePathOneLine(carId, now, i, ext);
  }

  /** The leftmost `/car-images/` of a bucket path is the bucket's own. */
  lemma AfterBucketPath(fp: string)
    ensures AfterMark(BUCKET_PATH + fp) == Some(fp)
  {
    var tail := BUCKET_MARK + fp;
    BucketPathSegments(fp);
    LeadSegmentsMarkFree();
    AfterMarkSkips("/storage", "/v1" + ("/object" + ("/public" + tail)));
    AfterMarkSkips("/v1", "/object" + ("/public" + tail));
    AfterMarkSkips("/object", "/public" + tail);
    AfterMarkSkips("/public", tail);
    AfterOwnMark(fp);
  }

  lemma BucketPathSegments(fp: string)
    ensures BUCKET_PATH + fp == "/storage" + ("/v1" + ("/object" + ("/public" + (BUCKET_MARK + fp))))
  {
  }

  lemma LeadSegmentsMarkFree()
    ensures MarkFreeLead("/storage") && MarkFreeLead("/v1")
    ensures MarkFreeLead("/object") && MarkFreeLead("/public")
  {
    StorageMarkFree();
    ObjectMarkFree();
    PublicMarkFree();
  }

  lemma StorageMarkFree()
    ensures MarkFreeLead("/storage")
  {
    assert MarkFreeLead("age");
    assert MarkFreeLead("storage"[3..]);
  }

  lemma ObjectMarkFree()
    ensures MarkFreeLead("/object")
  {
    assert MarkFreeLead("ect");
  }

  lemma PublicMarkFree()
    ensures MarkFreeLead("/public")
  {
    assert MarkFreeLead("lic");
  }

  lemma AfterOwnMark(fp: string)
    ensures AfterMark(BUCKET_MARK + fp) == Some(fp)
  {
    var tail := BUCKET_MARK + fp;
    assert StartsWith(tail, BUCKET_MARK);
    assert tail[|BUCKET_MARK|..] == fp;
  }

  lemma FilePathOneLine(carId: Id, now: nat, i: nat, ext: string)
    requires NoLineTerminator(carId) && AllAlnum(ext)
    ensures NoLineTerminator(FilePath(carId, now, i, ext))
  {
    assert forall c :: c in ext ==> Alnum(c);
    assert forall c :: c in NatToString(now) ==> '0' <= c <= '9';
    assert forall c :: c in NatToString(i) ==> '0' <= c <= '9';
  }

  /** A car added with one uploaded image, deleted later, has exactly that
      file removed from storage (given that the URL parser reads the public
      URL's path as the bucket path, as it does for a base URL without a
      path of its own). */
  lemma DeleteRemovesUploadedFile(base: string, carId: Id, now: nat, i: nat, ext: string,
                                  pathname: string -> Option<string>)
    requires NoLineTerminator(carId) && AllAlnum(ext)
    requires pathname(PublicUrl(base, FilePath(carId, now, i, ext))) == Some(BUCKET_PATH + FilePath(carId, now, i, ext))
    ensures DeletedPaths([PublicUrl(base, FilePath(carId, now, i, ext))], pathname) == [FilePath(carId, now, i, ext)]
  {
    var fp := FilePath(carId, now, i, ext);
    UploadedPathRecovered(carId, now, i, ext);
    SingleImagePaths(PublicUrl(base, fp), BUCKET_PATH + fp, pathname);
  }

  lemma SingleImagePaths(url: string, path: string, pathname: string -> Option<string>)
    requires pathname(url) == Some(path)
    requires StoragePath(path).Some? && StoragePath(path).value != []
    ensures DeletedPaths([url], pathname) == [StoragePath(path).value]
  {
    assert [url][1..] == [];
    assert StoragePaths([], pathname) == Some([]);
  }

  /** The car rows without the deleted one. */
  function RemoveCar(cars: seq<Car>, id: Id): (r: seq<Car>)
    ensures forall c :: c in r <==> c in cars && c.id != id
    ensures CarIds(r) == CarIds(cars) - {id}
    ensures |r| <= |cars|
  {
    if cars == [] then []
    else
      assert cars == [cars[0]] + cars[1..];
      var rest := RemoveCar(cars[1..], id);
      if cars[0].id == id then rest else [cars[0]] + rest
  }

  /** Removing rows keeps the remaining car ids unique. */
  lemma {:induction false} RemoveCarKeyed(cars: seq<Car>, id: Id)
    requires CarsKeyed(cars)
    ensures CarsKeyed(RemoveCar(cars, id))
  {
    if cars != [] {
      var rest := RemoveCar(cars[1..], id);
      assert CarsKeyed(cars[1..]) by {
        forall i, j | 0 <= i < j < |cars[1..]| ensures cars[1..][i].id != cars[1..][j].id {
          assert cars[1..][i] == cars[i + 1] && cars[1..][j] == cars[j + 1];
        }
      }
      RemoveCarKeyed(cars[1..], id);
      if cars[0].id != id {
        var r := [cars[0]] + rest;
        forall i, j | 0 <= i < j < |r| ensures r[i].id != r[j].id {
          if i == 0 {
            assert r[j] in rest;
            assert r[j] in cars[1..];
            var k :| 0 <= k < |cars[1..]| && cars[1..][k] == r[j];
            assert cars[k + 1] == r[j];
          } else {
            assert r[i] == rest[i - 1] && r[j] == rest[j - 1];
          }
        }
      }
    }
  }

  function RemoveSavedOf(saved: seq<SavedCar>, carId: Id): (r: seq<SavedCar>)
    ensures forall s :: s in r <==> s in saved && s.carId != carId
  {
    if saved == [] then []
    else
      assert saved == [saved[0]] + saved[1..];
      var rest := RemoveSavedOf(saved[1..], carId);
      if saved[0].carId == carId then rest else [saved[0]] + rest
  }

  /** Dropping wishlist rows keeps the (user, car) pairs unique. */
  lemma {:induction false} RemoveSavedOfKeyed(saved: seq<SavedCar>, carId: Id)
    requires SavedKeyed(saved)
    ensures SavedKeyed(RemoveSavedOf(saved, carId))
  {
    if saved != [] {
      var tail := saved[1..];
      var rest := RemoveSavedOf(tail, carId);
      assert SavedKeyed(tail) by {
        forall i, j | 0 <= i < j < |tail|
          ensures tail[i].userId != tail[j].userId || tail[i].carId != tail[j].carId
        {
          assert tail[i] == saved[i + 1] && tail[j] == saved[j + 1];
        }
      }
      RemoveSavedOfKeyed(tail, carId);
      if saved[0].carId != carId {
        var r := [saved[0]] + rest;
        forall i, j | 0 <= i < j < |r|
          ensures r[i].userId != r[j].userId || r[i].carId != r[j].carId
        {
          if i == 0 {
            assert r[j] in rest;
            var k :| 0 <= k < |tail| && tail[k] == r[j];
            assert saved[k + 1] == r[j];
          } else {
            assert r[i] == rest[i - 1] && r[j] == rest[j - 1];
          }
        }
      }
    }
  }

  function RemoveBookingsOf(bookings: seq<Booking>, carId: Id): (r: seq<Booking>)
    ensures forall b :: b in r <==> b in bookings && b.carId != carId
  {
    if bookings == [] then []
    else
      assert bookings == [bookings[0]] + bookings[1..];
      var rest := RemoveBookingsOf(bookings[1..], carId);
      if bookings[0].carId == carId then rest else [bookings[0]] + rest
  }

  /** Dropping bookings keeps the booking ids unique. */
  lemma {:induction false} RemoveBookingsOfKeyed(bookings: seq<Booking>, carId: Id)
    requires BookingsKeyed(bookings)
    ensures BookingsKeyed(RemoveBookingsOf(bookings, carId))
  {
    if bookings != [] {
      var tail := bookings[1..];
      var rest := RemoveBookingsOf(tail, carId);
      assert BookingsKeyed(tail) by {
        forall i, j | 0 <= i < j < |tail| ensures tail[i].id != tail[j].id {
          assert tail[i] == bookings[i + 1] && tail[j] == bookings[j + 1];
        }
      }
      RemoveBookingsOfKeyed(tail, carId);
      if bookings[0].carId != carId {
        var r := [bookings[0]] + rest;
        forall i, j | 0 <= i < j < |r| ensures r[i].id != r[j].id {
          if i == 0 {
            assert r[j] in rest;
            var k :| 0 <= k < |tail| && tail[k] == r[j];
            assert bookings[k + 1] == r[j];
          } else {
            assert r[i] == rest[i - 1] && r[j] == rest[j - 1];
          }
        }
      }
    }
  }

  /** Deleting a car, with the wishlist entries and bookings that point to it,
      keeps the store well formed. */
  lemma DeleteKeepsValid(users: seq<User>, cars: seq<Car>, saved: seq<SavedCar>, bookings: seq<Booking>, id: Id)
    requires WellFormed(users, cars, saved, bookings)
    ensures WellFormed(users, RemoveCar(cars, id), RemoveSavedOf(saved, id), RemoveBookingsOf(bookings, id))
  {
    RemoveCarKeyed(cars, id);
    RemoveSavedOfKeyed(saved, id);
    RemoveBookingsOfKeyed(bookings, id);
  }

  /** `deleteCars(id)`. The store deletes the rows that reference the car
      with it. `removed` is what is handed to storage for removal (nothing
      when no path was extracted or a URL did not parse); storage's answer is
      ignored. */
  method DeleteCar(db: Db, caller: Option<string>, id: Id, pathname: string -> Option<string>)
    returns (r: Reply<()>, removed: seq<string>)
    modifies db
    requires db.Valid()
    ensures db.Valid()
    ensures db.users == old(db.users) && db.dealerships == old(db.dealerships) && db.hours == old(db.hours)
    ensures caller.None? ==> r == Fail("Unauthorized")
    ensures caller.Some? && old(db.CallerUser(caller)).None? ==> r == Fail("User not found")
    ensures old(db.CallerUser(caller)).Some? && id !in CarIds(old(db.cars)) ==> r == Fail("Car not Found ")
    ensures old(db.CallerUser(caller)).Some? && id in CarIds(old(db.cars)) ==>
      && r == Ok(())
      && db.cars == RemoveCar(old(db.cars), id)
      && db.saved == RemoveSavedOf(old(db.saved), id)
      && db.bookings == RemoveBookingsOf(old(db.bookings), id)
      && removed == DeletedPaths(CarOf(old(db.cars), id).images, pathname)
    ensures !r.Ok? ==> removed == [] && db.cars == old(db.cars) && db.saved == old(db.saved) && db.bookings == old(db.bookings)
  {
    removed := [];
    if caller.None? {
      return Fail("Unauthorized"), removed;
    }
    if db.CallerUser(caller).None? {
      return Fail("User not found"), removed;
    }
    var found := CarById(db.cars, id);
    if found.None? {
      return Fail("Car not Found "), removed;
    }
    var car := found.value;
    DeleteKeepsValid(db.users, db.cars, db.saved, db.bookings, id);
    db.cars := RemoveCar(db.cars, id);
    db.saved := RemoveSavedOf(db.saved, id);
    db.bookings := RemoveBookingsOf(db.bookings, id);
    removed := DeletedPaths(car.images, pathname);
    r := Ok(());
  }

  /** The list handed to `remove`: the extracted paths, or nothing when none
      was extracted or the extraction threw. */
  function DeletedPaths(images: seq<string>, pathname: string -> Option<string>): (r: seq<string>)
    ensures |r| <= |images|
    ensures (exists u :: u in images && pathname(u).None?) ==> r == []
    ensures (forall u :: u in images ==> pathname(u).Some?) ==>
      forall p :: p in r <==> p != [] && Extracted(images, pathname, p)
  {
    match StoragePaths(images, pathname)
    case None => []
    case Some(p) =>
      StoragePathsContents(images, pathname);
      p
  }

  // ---------------------------------------------------------------------------
  // updateCarsStatus
  // ---------------------------------------------------------------------------

  /** The row after `db.car.update` with only the fields that were given. */
  function ApplyUpdate(c: Car, status: Option<CarStatus>, featured: Option<bool>): (r: Car)
    ensures r.status == (if status.Some? then status.value else c.status)
    ensures r.featured == (if featured.Some? then featured.value else c.featured)
    ensures r == c.(status := r.status, featured := r.featured)
  {
    c.(status := if status.Some? then status.value else c.status,
       featured := if featured.Some? then featured.value else c.featured)
  }

  /** Applying an update twice is the same as applying it once. */
  lemma ApplyUpdateIdempotent(c: Car, status: Option<CarStatus>, featured: Option<bool>)
    ensures ApplyUpdate(ApplyUpdate(c, status, featured), status, featured) == ApplyUpdate(c, status, featured)
  {
  }

  /** The car rows with the update applied to the row keyed `id`. */
  function UpdateRows(cars: seq<Car>, id: Id, status: Option<CarStatus>, featured: Option<bool>): (r: seq<Car>)
    ensures |r| == |cars|
    ensures forall i :: 0 <= i < |r| ==>
      r[i] == (if cars[i].id == id then ApplyUpdate(cars[i], status, featured) else cars[i])
  {
    seq(|cars|, i requires 0 <= i < |cars| =>
      if cars[i].id == id then ApplyUpdate(cars[i], status, featured) else cars[i])
  }

  /** An update keeps every car id and so every reference to a car. */
  lemma UpdateRowsKeepsIds(cars: seq<Car>, id: Id, status: Option<CarStatus>, featured: Option<bool>)
    ensures CarIds(UpdateRows(cars, id, status, featured)) == CarIds(cars)
    ensures CarsKeyed(cars) ==> CarsKeyed(UpdateRows(cars, id, status, featured))
  {
    var r := UpdateRows(cars, id, status, featured);
    forall x | x in CarIds(cars) ensures x in CarIds(r) {
      var k :| 0 <= k < |cars| && cars[k].id == x;
      assert r[k].id == x;
    }
    forall x | x in CarIds(r) ensures x in CarIds(cars) {
      var k :| 0 <= k < |r| && r[k].id == x;
      assert cars[k].id == x;
    }
  }

  /** `updateCarsStatus(id, { status, featured })`. `missing` is the store's
      message when no car has the id. */
  method UpdateCarStatus(db: Db, caller: Option<string>, id: Id, status: Option<CarStatus>,
                         featured: Option<bool>, missing: string)
    returns (r: Reply<()>)
    modifies db
    requires db.Valid()
    ensures db.Valid()
    ensures db.users == old(db.users) && db.saved == old(db.saved) && db.bookings == old(db.bookings)
    ensures db.dealerships == old(db.dealerships) && db.hours == old(db.hours)
    ensures caller.None? ==> r == Fail("Unauthorized")
    ensures caller.Some? && old(db.CallerUser(caller)).None? ==> r == Fail("User not found")
    ensures old(db.CallerUser(caller)).Some? && id !in CarIds(old(db.cars)) ==> r == Fail(missing)
    ensures old(db.CallerUser(caller)).Some? && id in CarIds(old(db.cars)) ==>
      r == Ok(()) && db.cars == UpdateRows(old(db.cars), id, status, featured)
    ensures !r.Ok? ==> db.cars == old(db.cars)
  {
    if caller.None? {
      return Fail("Unauthorized");
    }
    if db.CallerUser(caller).None? {
      return Fail("User not found");
    }
    if CarById(db.cars, id).None? {
      return Fail(missing);
    }
    UpdateRowsKeepsIds(db.cars, id, status, featured);
    db.cars := UpdateRows(db.cars, id, status, featured);
    r := Ok(());
  }
}
