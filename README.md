# Car dealership server actions, modelled in Dafny

This project models the server side of a car-dealership web application
(a Next.js app whose server actions read and write a relational store through
Prisma). It covers:

- the public car listing with search, filters, sorting and pagination;
- the wishlist ("saved cars");
- test-drive booking and cancelling, and the reservations list;
- the admin inventory: adding a car from uploaded photos, listing, deleting
  and updating cars;
- the admin test-drive list and the status update;
- the admin dashboard statistics;
- the dealership's working hours and the user roles;
- the car details page and the home page's featured cars;
- the photo-based car recognition and search;
- the first-visit user creation;
- the `serializeCarData` helper.

The store is a class `Store.Db` whose fields are the tables, each a sequence
of rows: users, cars, saved cars, bookings, dealerships and working hours.
`Db.Valid()` says that keys are unique and that every wishlist entry and
booking points to an existing user and car. Actions that write the store are
methods with `modifies db`. They state the complete new state, and they keep
`Valid()`. Read-only actions are functions that read `db`.

Everything the actions get from outside the store arrives as a parameter:

- the signed-in identity (`caller: Option<string>`);
- whether the model key is configured;
- the model's reply (`ModelReply`);
- the JSON parser (`parse: string -> Option<Json>`);
- the rate limiter's verdict (`Decision`);
- the storage upload outcome and the URL parser (`pathname`);
- fresh ids, and the clock (`now`).

Errors the store raises with messages the source does not show are
parameters too (`missing`, `rejection`, `bufferError`).

An action's answer is a `Common.Reply`:

- `Ok(data)` is `{ success: true, … }`;
- `Fail(message)` is `{ success: false, error }`;
- `Raise(message)` is a thrown `Error` with the action's prefix;
- `NotAdmin` is `{ authorized: false, reason: 'not-admin' }`.

The modules follow the source files:

| module | source file |
|---|---|
| `Cars` | actions/cars.js |
| `Admin` | actions/admin.js |
| `CarListing` | actions/car-listing.js |
| `Settings` | actions/settings.js |
| `TestDrive` | actions/test-drive.js |
| `Home` | actions/home.js |
| `CarDetails` | actions/car-details.js |
| `CheckUser` | lib/checkUser.js |
| `Helper` | lib/helper.js |

Four modules hold shared pieces:

- `Common`: options, replies and case-insensitive text;
- `Sorting`: ordering, `skip` and `take`;
- `Store`: the tables;
- `AiResponse`: the cleaning and checking of a model reply that
  actions/cars.js and actions/home.js share.

## Model

| member | source | states |
|---|---|---|
| Helper.SerializeWith | lib/helper.js:5-13 | every column is copied; the price becomes a plain number (0 when missing); the timestamps become ISO text; `wishlisted` is the value passed |
| Helper.Serialize | lib/helper.js:5-13 | with a boolean flag, `wishlisted` reads as true exactly when the flag is true; the row is recovered from the view, up to a missing price |
| Helper.SerializeDefault | lib/helper.js:5 | the default second argument leaves `wishlisted` false |
| Helper.SerializeRoundTrip | lib/helper.js:5-13 | a car with a price is recovered exactly from its serialised form |
| Helper.SerializeForgetsMissingPrice | lib/helper.js:8 | a car without a price serialises like the same car priced 0 |
| Helper.MapSerialize | actions/cars.js:328 | `cars.map(serializeCarData)` passes each row's index as the `wishlisted` argument |
| Helper.MapSerializeFlagsLaterRows | actions/home.js:27 | in that mapping, every row after the first reads as wishlisted |
| Helper.SerializeAll | actions/home.js:27 | each row is serialised with the default flag, and none reads as wishlisted |
| Store.UserByClerk | lib/checkUser.js:19-25 | the lookup by sign-in id finds a row with that id, or reports that there is none |
| Store.UserById | actions/settings.js:228-231 | the user keyed `id`, present exactly when the id is in the table |
| Store.CarById | actions/car-details.js:19-31 | the car keyed `id`, present exactly when the id is in the table |
| Store.BookingById | actions/admin.js:162-168 | the booking keyed `id`, present exactly when the id is in the table |
| Store.CarOf | actions/test-drive.js:102-106 | the car a booking refers to is a row of the car table with that id |
| Store.CarByIdFindsRow | actions/car-details.js:19-31 | with unique car ids, the lookup by a row's id returns that row |
| Store.BookingByIdFindsRow | actions/admin.js:162-168 | with unique booking ids, the lookup by a row's id returns that row |
| Store.Db.CallerUser | actions/car-listing.js:100-107 | `auth()` then `findUnique` by sign-in id: a row of the signed-in identity, or none; nothing for a signed-out caller |
| Common.Lower | actions/car-listing.js:120 | the case fold is applied character by character and keeps the length |
| Common.Count | actions/admin.js:377-402 | `filter(p).length` is at most the length, and it is 0 exactly when no element satisfies `p` |
| Common.NatToString | actions/cars.js:204 | a number in a template literal is a run of decimal digits spelling that number, with no leading zero |
| Common.NatToStringInjective | actions/cars.js:204 | different numbers render differently |
| Sorting.SortBy | actions/car-listing.js:184-190 | `orderBy` yields an ordered permutation of the selected rows |
| Sorting.Insert | actions/car-listing.js:184-190 | inserting a row keeps the order and adds exactly that row |
| Sorting.Window | actions/car-listing.js:184-190 | `skip`/`take` give rows `skip .. skip+take` of the ordered rows, fewer past the end |
| Sorting.WindowSorted | actions/car-listing.js:184-190 | a window of ordered rows is ordered |
| Sorting.Take | actions/home.js:11-21 | `take` gives the first `limit` rows, or all when there are fewer |
| CarListing.BuildWhere | actions/car-listing.js:110-150 | a row is selected iff it is AVAILABLE, matches the search in make, model or description ignoring case, equals each given filter ignoring case, and its price lies within the bounds (a NaN or 0 minimum is 0; the maximum applies when it is truthy and compares below `MAX_SAFE_INTEGER`, and then bounds by its `parseFloat` value, so a NaN bound selects nothing) |
| CarListing.ZeroMaxPrice | actions/car-listing.js:148-150 | the number 0 sets no upper bound, while the text "0" caps every price at 0 |
| CarListing.Matching | actions/car-listing.js:180 | the counted rows are exactly the rows the query selects |
| CarListing.OrderOf | actions/car-listing.js:165-177 | `priceAsc` and `priceDesc` select the price orders; any other value selects newest first |
| CarListing.CarOrderLe | actions/car-listing.js:165-177 | each sort order is a total preorder on cars |
| CarListing.PageCount | actions/car-listing.js:223 | `Math.ceil(total / limit)`: enough pages for every row, and no empty last page |
| CarListing.SavedCarIds | actions/car-listing.js:197-206 | the wishlist set holds exactly the car ids the user saved |
| CarListing.PageViews | actions/car-listing.js:211-213 | each car on the page is serialised with `wishlisted` true exactly when its id is in the set |
| CarListing.ViewsOfPage | actions/car-listing.js:184-213 | a page of selected, ordered rows shows selected rows in the requested order, with the right flags |
| CarListing.PageAnswers | actions/car-listing.js:162-225 | the page and its pagination answer the query: the total count, the page count, and views that are exactly the window at `(page-1)*limit` of some ordering of all selected rows as `orderBy` asks, flagged by wishlist membership |
| CarListing.SkipOf | actions/car-listing.js:162 | `skip` is `(page - 1) * limit` and is never negative |
| CarListing.WindowShows | actions/car-listing.js:184-213 | the window of the ranked rows shows selected rows in order |
| CarListing.GetCars | actions/car-listing.js:84-230 | a caller without a store row gets `undefined`; otherwise the answer is the window of the ranked selection at `(page-1)*limit`, the pagination and the flags the query asks for |
| CarListing.RemovePair | actions/car-listing.js:283-288 | deleting the (user, car) entry removes exactly the rows with that pair |
| CarListing.ToggleFlipsOnePair | actions/car-listing.js:270-309 | a toggle flips whether the pair is saved and leaves every other pair alone |
| CarListing.RemoveAbsentPair | actions/car-listing.js:283-288 | deleting a pair that is not saved leaves the table unchanged |
| CarListing.RemoveAfterAppend | actions/car-listing.js:283-311 | removing a pair just added restores the table |
| CarListing.ToggleTwiceRestores | actions/car-listing.js:233-321 | toggling the same pair twice restores the saved pairs, and the rows too when the pair was not saved at first |
| CarListing.ToggleSavedCar | actions/car-listing.js:233-321 | signed-out and unknown callers are rejected and an unknown car is refused; otherwise only the wishlist changes, by one toggle, and the reply says whether the car is now saved |
| CarListing.SubsequenceKeepsKeys | actions/car-listing.js:283-288 | removing a pair keeps the (user, car) pairs unique |
| CarListing.InsertDistinct | actions/car-listing.js:15-48 | adding a value keeps the list strictly ascending and adds exactly that value |
| CarListing.DistinctAscending | actions/car-listing.js:15-48 | `distinct` with ascending `orderBy`: each value once, strictly ascending |
| CarListing.AvailableValues | actions/car-listing.js:15-48 | the column's values are exactly those of AVAILABLE cars |
| CarListing.MinPrice | actions/car-listing.js:51-56 | `_min.price` over AVAILABLE priced cars: absent when there is none, otherwise a price no larger than any other |
| CarListing.MaxPrice | actions/car-listing.js:51-56 | `_max.price` over AVAILABLE priced cars: absent when there is none, otherwise a price no smaller than any other |
| CarListing.FilterList | actions/car-listing.js:15-48 | each filter list holds each value of its column among AVAILABLE cars, once, ascending |
| CarListing.GetCarFilters | actions/car-listing.js:11-79 | the four filter lists, and the price range of AVAILABLE cars, defaulting to 0 and 100000 |
| CarListing.SavedNewestFirstLe | actions/car-listing.js:353-355 | most recently saved first is a total preorder |
| CarListing.RowsOf | actions/car-listing.js:348-349 | the wishlist rows of exactly one user |
| CarListing.SavedNewestFirst | actions/car-listing.js:348-356 | the user's wishlist rows, most recently saved first |
| CarListing.GetSavedCars | actions/car-listing.js:324-373 | signed-out and unknown callers are refused; otherwise one serialised car per saved row, most recently saved first, each with `wishlisted` false |
| TestDrive.AvailableCar | actions/test-drive.js:31-35 | the car found is the AVAILABLE car with that id; with unique ids, none found means the car is not AVAILABLE |
| TestDrive.StoredNotes | actions/test-drive.js:63 | `notes \|\| null` stores an empty note as no note |
| TestDrive.BookingRefusal | actions/test-drive.js:20-54 | a booking is admitted iff the caller is signed in and known, the car is AVAILABLE and the slot is free; a held slot gives the slot message |
| TestDrive.RebookingRefused | actions/test-drive.js:38-54 | once a request is booked, the same request is refused as taken |
| TestDrive.BookingKeepsSlotsExclusive | actions/test-drive.js:38-67 | a booking admitted by the slot check keeps held slots exclusive |
| TestDrive.BookTestDrive | actions/test-drive.js:10-83 | every refusal comes back as `success: false` with its message and changes nothing; an admitted booking appends one PENDING row and returns it |
| TestDrive.ViewOfBooking | actions/test-drive.js:111-122 | the view carries the booking's id, status and notes, its car serialised, and ISO dates |
| TestDrive.BookingsOf | actions/test-drive.js:102-103 | the bookings of exactly one user |
| TestDrive.LatestDateFirst | actions/test-drive.js:107 | later booking date first is a total preorder |
| TestDrive.ViewsListBookings | actions/test-drive.js:102-122 | the sorted views show every booking of the user once, with its car, latest date first |
| TestDrive.GetUserTestDrive | actions/test-drive.js:87-135 | signed-out and unknown callers are refused; otherwise the caller's bookings with their cars, latest first |
| TestDrive.CancelRefusal | actions/test-drive.js:158-191 | cancelling is allowed only when the booking is the caller's own and the caller is an ADMIN, and the booking is neither CANCELLED nor COMPLETED; each refusal carries its own message (unauthorised, already cancelled, completed) exactly in its case |
| TestDrive.UsersCannotCancel | actions/test-drive.js:168 | an ordinary user is refused even for their own booking |
| TestDrive.SetStatus | actions/test-drive.js:196-199 | only the row with that id changes, and only its status |
| TestDrive.SetStatusKeepsRefs | actions/test-drive.js:196-199 | a status update keeps ids unique and every reference good |
| TestDrive.CancelKeepsSlotsExclusive | actions/test-drive.js:196-199 | a cancelled booking no longer holds its slot, and held slots stay exclusive |
| TestDrive.CancelTestDrive | actions/test-drive.js:139-217 | signed-out and unknown callers, a missing booking and each refusal come back as failures and change nothing; otherwise the booking becomes CANCELLED |
| Admin.GetAdmin | actions/admin.js:8-26 | a signed-out caller is rejected with a throw; the caller passes exactly when it is an ADMIN, and is otherwise told it is not an admin |
| Admin.StatusOf | actions/admin.js:171-185 | a status name is accepted exactly when it names one of the five booking statuses |
| Admin.AdminView | actions/admin.js:111-124 | the view carries the booking with its car and the selected user fields |
| Admin.AdminSelected | actions/admin.js:50-85 | the selected bookings are those with the given status, whose car make or model or user name or email contains the search ignoring case |
| Admin.AdminOrderLe | actions/admin.js:105 | later booking date first, then earlier start time, is a total preorder |
| Admin.AdminViews | actions/admin.js:111-124 | one view per row, each showing its booking with its car and user |
| Admin.ViewsListSelected | actions/admin.js:89-124 | the views list every selected booking once, in the store's order |
| Admin.ViewsInOrder | actions/admin.js:105 | the views keep the row order |
| Admin.SortedAdminBefore | actions/admin.js:105 | a sorted list is ordered by date, then by start time |
| Admin.RowsAreSelected | actions/admin.js:89-124 | every view shows a selected booking |
| Admin.SelectedAreShown | actions/admin.js:89-124 | every selected booking has a view |
| Admin.GetAdminTestDrives | actions/admin.js:29-137 | a signed-out caller and a store rejection come back as `success: true` with an error; a non-admin is told so; an admin gets the selected bookings, ordered |
| Admin.UpdateTestDriveStatus | actions/admin.js:142-206 | errors are thrown with the prefix; a non-admin is told so; an invalid status is refused; otherwise only that booking's status changes |
| Admin.UpdatedBookingHasStatus | actions/admin.js:188-191 | after an update, the booking carries the status it was given |
| Admin.CompletedCarIds | actions/admin.js:405-407 | one car id per COMPLETED booking, and exactly the cars of completed bookings |
| Admin.CarCountsPartition | actions/admin.js:376-383 | the three car status counts add up to the total |
| Admin.DriveCountsPartition | actions/admin.js:387-402 | the five booking status counts add up to the total |
| Admin.SoldAfterAtMostSold | actions/admin.js:409-412 | cars sold after a test drive are at most the sold cars |
| Admin.ConversionRateIsPercentage | actions/admin.js:405-417 | with unique car ids, the conversion rate lies between 0 and 100 |
| Admin.SoldAfterAtMostCompleted | actions/admin.js:405-412 | with unique car ids, cars sold after a test drive are at most the completed bookings |
| Admin.DistinctCarsWithin | actions/admin.js:409-412 | cars with distinct ids drawn from a set are no more than the set |
| Admin.RateBounds | actions/admin.js:414-417 | the rate is a percentage when the numerator is at most the denominator |
| Admin.Statistics | actions/admin.js:376-417 | each figure is the count of cars or bookings with its status (or featured), and the rate is sold-after over completed as a percentage |
| Admin.GetDashboardData | actions/admin.js:333-449 | a signed-out caller fails; a non-admin is told so; an admin gets exactly the statistics of all cars and bookings, whose counts partition the totals, with a rate of 0 without completed bookings |
| Admin.DashboardRateIsPercentage | actions/admin.js:405-417 | on a well-formed store the dashboard's rate lies between 0 and 100 |
| AiResponse.StripFences | actions/cars.js:88 | the cleaned text is no longer than the reply |
| AiResponse.StripFencesRemovesAll | actions/cars.js:88 | after the global replace, no code fence is left |
| AiResponse.StripFencesKeepsPlainText | actions/cars.js:88 | a text without backticks is unchanged |
| AiResponse.StripHead | actions/cars.js:88 | a character other than a backtick is copied |
| AiResponse.LeadingSpace | actions/cars.js:88 | the leading white space is a maximal run |
| AiResponse.TrailingSpace | actions/cars.js:88 | the trailing white space is a maximal run |
| AiResponse.Trim | actions/cars.js:88 | `trim()` cuts only white space, at both ends, and leaves a text that neither starts nor ends with it |
| AiResponse.Clean | actions/home.js:129 | the text handed to the parser holds no fence, and neither starts nor ends with white space |
| AiResponse.CleanFencedBody | actions/cars.js:88 | a reply fenced as ```` ```json ```` is cleaned to its body |
| AiResponse.StripFencesTail | actions/cars.js:88 | a closing fence is removed |
| AiResponse.TrimKeeps | actions/cars.js:88 | an already trimmed text is unchanged |
| AiResponse.Missing | actions/cars.js:112-114 | the missing names are exactly the listed names the object lacks |
| AiResponse.MissingFields | actions/cars.js:97-121 | nothing is missing exactly when the object has all eleven required fields |
| AiResponse.OnlyConfidenceMissing | actions/cars.js:97-121 | an object lacking only `confidence` misses exactly that one |
| AiResponse.MissingOrder | actions/cars.js:112-114 | the missing names keep the list order and do not repeat |
| AiResponse.CheckCarDetails | actions/cars.js:91-134 | the value is accepted exactly when it parses to an object with every required field; otherwise the parse-failure reply |
| Cars.ProcessCarImageWithAI | actions/cars.js:20-140 | a missing key and a failed model call are thrown with the prefix; the reply is accepted exactly when its cleaned text parses to a complete object, and is otherwise a parse failure |
| Cars.FirstUsable | actions/cars.js:181-188 | the first non-empty data-URL image, with every earlier entry skipped |
| Cars.AlnumRun | actions/cars.js:197 | the alphanumeric run is maximal |
| Cars.MimeHere | actions/cars.js:197 | a match captures a non-empty alphanumeric subtype |
| Cars.MimeMatch | actions/cars.js:197 | the leftmost match captures a non-empty alphanumeric subtype |
| Cars.Extension | actions/cars.js:197-199 | the extension is non-empty and alphanumeric; without a match it is `jpeg` |
| Cars.ExtensionOfHeader | actions/cars.js:197-199 | a data URL naming an alphanumeric subtype gets that subtype as its extension |
| Cars.FilePath | actions/cars.js:168-207 | the storage path starts with `cars/<carId>/image-` and ends with `.<ext>` |
| Cars.FilePathIndex | actions/cars.js:204-207 | the images of one upload get distinct paths: equal paths come from the same loop index |
| Cars.NewCar | actions/cars.js:253-270 | the created row has the car's id, the uploaded image URLs and the creation time |
| Cars.AddCar | actions/cars.js:144-282 | unauthorised and unknown callers are thrown; otherwise the loop stops at the first usable image, and either a conversion or upload error is thrown, or one car with that one image is created, or nothing is returned |
| Cars.NewCarKeepsValid | actions/cars.js:253-270 | a car with a fresh id keeps the store well formed |
| Cars.SearchRows | actions/cars.js:309-315 | the intended search: rows whose make, model or colour contains the text ignoring case, or all rows without a text |
| Cars.NewestFirst | actions/cars.js:318-321 | newest first is an ordered permutation of the rows |
| Cars.NewestViewsList | actions/cars.js:318-328 | the sorted views show every row once, newest first |
| Cars.GetCarsAdmin | actions/cars.js:286-340 | signed-out and unknown callers fail; otherwise the matching cars, newest first |
| Cars.GetCarsAdminAsWritten | actions/cars.js:286-340 | as written: a non-empty search always fails with the store's rejection; without one, rows after the first read as wishlisted |
| Cars.AdminSearchFailsAsWritten | actions/cars.js:309-315 | a search that matches a car lists it in the intended action and fails as written |
| Cars.AdminListMatchesSearch | actions/cars.js:286-340 | a view is listed exactly when it is the view of a matching car |
| Cars.AfterMark | actions/cars.js:395 | the text after the leftmost `/car-images/`, present exactly when the path contains it |
| Cars.RestOfLine | actions/cars.js:395 | `(.*)` captures the longest prefix without a line terminator |
| Cars.StoragePath | actions/cars.js:395-398 | a path is captured exactly when the URL path contains `/car-images/` |
| Cars.StoragePaths | actions/cars.js:390-399 | paths are produced exactly when every URL parses, and there are no more paths than URLs |
| Cars.StoragePathsContents | actions/cars.js:390-401 | the paths are exactly the non-empty captures after `/car-images/` of the URLs' pathnames; URLs without the marker add nothing |
| Cars.StoragePathsAppend | actions/cars.js:390-399 | the paths keep the order of the URLs: those of a concatenation are those of its parts, in turn |
| Cars.AfterMarkSkips | actions/cars.js:395 | a lead without the mark does not move the match |
| Cars.UploadedPathRecovered | actions/cars.js:204-226 | the path of an uploaded image is recovered from its public URL |
| Cars.AfterBucketPath | actions/cars.js:226 | the match in a bucket URL path falls on the bucket's own mark |
| Cars.AfterOwnMark | actions/cars.js:395 | the text after a leading mark is the rest |
| Cars.FilePathOneLine | actions/cars.js:204-207 | the file path holds no line terminator |
| Cars.DeleteRemovesUploadedFile | actions/cars.js:204-410 | deleting a car added with one uploaded image removes exactly that file |
| Cars.SingleImagePaths | actions/cars.js:390-410 | one image URL gives one storage path |
| Cars.RemoveCar | actions/cars.js:379-381 | exactly the rows with other ids remain |
| Cars.RemoveCarKeyed | actions/cars.js:379-381 | the remaining car ids are unique |
| Cars.RemoveSavedOf | actions/cars.js:379-381 | the wishlist rows of the deleted car go with it |
| Cars.RemoveSavedOfKeyed | actions/cars.js:379-381 | the remaining (user, car) pairs are unique |
| Cars.RemoveBookingsOf | actions/cars.js:379-381 | the bookings of the deleted car go with it |
| Cars.RemoveBookingsOfKeyed | actions/cars.js:379-381 | the remaining booking ids are unique |
| Cars.DeleteKeepsValid | actions/cars.js:379-381 | deleting a car with its wishlist rows and bookings keeps the store well formed |
| Cars.DeleteCar | actions/cars.js:343-434 | unauthorised, unknown and missing-car cases fail and change nothing; otherwise the car, its wishlist rows and its bookings are removed, and its image paths are handed to storage |
| Cars.DeletedPaths | actions/cars.js:390-410 | when every URL parses, the removed paths are exactly the non-empty captures; nothing is removed when a URL fails to parse |
| Cars.ApplyUpdate | actions/cars.js:458-474 | only the given fields change |
| Cars.ApplyUpdateIdempotent | actions/cars.js:458-474 | applying an update twice equals applying it once |
| Cars.UpdateRows | actions/cars.js:471-474 | only the row with that id changes |
| Cars.UpdateRowsKeepsIds | actions/cars.js:471-474 | an update keeps every car id and their uniqueness |
| Cars.UpdateCarStatus | actions/cars.js:438-494 | unauthorised and unknown callers and a missing car fail; otherwise only that car's status and featured flag change |
| Home.FeaturedRows | actions/home.js:12-15 | exactly the featured AVAILABLE cars |
| Home.NewestFeatured | actions/home.js:11-21 | exactly min(`limit`, featured count) featured cars, each row at most as often as the table holds it, newest first, and none left out is newer than one shown |
| Home.TakeFromRows | actions/home.js:17 | the rows taken are rows of the selection |
| Home.TakeKeepsNewer | actions/home.js:17-20 | a row newer than one taken is taken too |
| Home.GetFeaturedCars | actions/home.js:9-30 | exactly min(`limit`, featured count) views, serialising a sub-multiset of the featured AVAILABLE rows (no row repeated beyond the table), newest first, with no newer featured car left out |
| Home.FeaturedViews | actions/home.js:27 | the serialised rows keep those properties |
| Home.ProcessImageSearch | actions/home.js:43-148 | a rate-limited or blocked request, a missing key and a failed model call are thrown with the prefix; a reply that parses is returned whatever its fields |
| Home.SearchAcceptsCarFormReplies | actions/home.js:129-145 | a reply the car form accepts is accepted by the search with the same data |
| Home.SearchAcceptsWhatCarFormRefuses | actions/home.js:129-145 | a reply holding only a make is accepted by the search and refused by the car form |
| Settings.DayIndex | actions/settings.js:31-33 | the day order has seven positions |
| Settings.DefaultWeekCoversEachDayOnce | actions/settings.js:39-99 | the default week names each of the seven days once, in order |
| Settings.HourRows | actions/settings.js:150-160 | one row per submitted entry, in order |
| Settings.HoursOf | actions/settings.js:27-36 | exactly the hour rows of one dealership |
| Settings.RemoveHoursOf | actions/settings.js:144-146 | exactly the hour rows of other dealerships remain |
| Settings.HoursOfAppend | actions/settings.js:150-160 | selecting distributes over appending |
| Settings.HoursOfNone | actions/settings.js:144-146 | a table without the dealership's rows selects nothing |
| Settings.HoursOfAll | actions/settings.js:150-160 | a table of only the dealership's rows selects all |
| Settings.HoursOfRemoved | actions/settings.js:144-146 | deleting one dealership's hours leaves another's |
| Settings.SavedWeekReplacesSchedule | actions/settings.js:144-160 | after saving, the dealership's hours are exactly the submitted week, and every other dealership's are unchanged |
| Settings.DayOrderLe | actions/settings.js:31-33 | day order is a total preorder |
| Settings.ByDay | actions/settings.js:31-33 | the hours in day order, the same rows |
| Settings.GetDealershipInfo | actions/settings.js:8-115 | unauthorised and unknown callers are thrown; otherwise the first dealership, with its hours in day order, is returned, and when there is none one is created with the default week |
| Settings.SeededHoursListed | actions/settings.js:39-103 | the seeded week is all of the new dealership's hours, in day order |
| Settings.DefaultRowsInDayOrder | actions/settings.js:39-99 | the default rows are in day order |
| Settings.SaveWorkingHours | actions/settings.js:118-172 | a signed-out caller and an unknown caller (by the null `role` read) are thrown; a missing dealership is thrown; otherwise the first dealership's hours are replaced by the week, whatever the caller's role; a refused create throws with the old hours deleted and the earlier entries written |
| Settings.ViewOfUser | actions/settings.js:197-201 | the user with ISO timestamps |
| Settings.UserNewestLe | actions/settings.js:191 | newest first is a total preorder |
| Settings.UsersNewestFirst | actions/settings.js:190-192 | all users, newest first |
| Settings.UserViews | actions/settings.js:197-201 | one view per user, in order |
| Settings.UserViewsList | actions/settings.js:190-201 | the views show every user once, newest first |
| Settings.GetUsers | actions/settings.js:175-207 | unauthorised callers and non-admins are thrown; an admin gets every user, newest first |
| Settings.SetRole | actions/settings.js:228-231 | only the role of the row with that id changes |
| Settings.SetRoleKeepsValid | actions/settings.js:228-231 | a role change keeps the store well formed and every id |
| Settings.DemotedAdminLosesAccess | actions/settings.js:222-231 | an admin who sets its own role to USER is found as a USER at its next sign-in |
| Settings.UpdateUserRole | actions/settings.js:211-242 | unauthorised callers, non-admins and a missing user are thrown; otherwise only that user's role changes |
| CarDetails.LatestLive | actions/car-details.js:54-63 | the newest PENDING, CONFIRMED or COMPLETED booking of the user for the car, absent exactly when there is none |
| CarDetails.DealershipOf | actions/car-details.js:77-103 | the first dealership with all its hours; absent exactly when there is none |
| CarDetails.GetCarById | actions/car-details.js:5-110 | an unknown car fails; for a caller without a store row the unguarded `dbUser.id` read throws; otherwise the car with its wishlist flag, the latest live drive and the dealership |
| CarDetails.ShownDriveIsNewestLive | actions/car-details.js:54-74 | the test drive shown is the caller's newest live booking of the car |
| CheckUser.FullName | lib/checkUser.js:33 | the name is the first part, one space, then the last part (`null` for a missing one) |
| CheckUser.NewUser | lib/checkUser.js:35-42 | the created row has the identity's id, its first email, the joined name and role USER |
| CheckUser.NewUserKeepsValid | lib/checkUser.js:35-42 | a user with fresh ids keeps the store well formed and is found by its sign-in id |
| CheckUser.ClerkAfterAppend | lib/checkUser.js:19-25 | an appended user with a fresh sign-in id is found by it |
| CheckUser.CheckUser | lib/checkUser.js:4-47 | signed out gives null; a known identity gives its row; a new identity is created; a missing email and any refusal of the lookup or the create by the store are swallowed, nothing is returned and no row is written |
| CheckUser.SecondVisitFindsFirst | lib/checkUser.js:19-43 | once a user is created for an identity, the next visit finds that row |

## Left out

- Network, authentication, the generative model, the rate limiter, object
  storage and `JSON.parse` are outside the model. Their results are
  parameters.
- `revalidatePath`, console logging and the rate limiter's token state are
  not modelled; they do not affect any answer.
- Reading a `File` into base64 (`fileToBase64`, `arrayBuffer`) is not
  modelled. The model reply is a parameter.
- `formatCurrency` (lib/helper.js:16-21) is not modelled; it is locale
  formatting with `Intl.NumberFormat`.
- `toISOString` text is abstracted as `Iso(instant)`. `toFixed(2)` on the
  conversion rate is not modelled: the rate is the exact percentage.
- Case-insensitive comparison folds ASCII letters only.
- `Promise.all` in the dashboard is modelled as sequential reads of one
  unchanging store.
- Store rows are plain values. The dealership's name, address, phone and
  email are not modelled; `getDealershipInfo` and `getCarById` pass them
  through unchanged.
- `deleteCars` is modelled with the deletion cascading to the car's wishlist
  rows and bookings. The schema is not part of this model; the cascade is an
  assumption.
- The store stamps `updatedAt` on updates; the model does not change it.
- The store's own messages (an update of a missing row, a rejected enum
  value, a failed buffer conversion) are parameters.
- CarListing.GetCars: `page` and `limit` are taken as positive integers. In
  the source a limit of 0 gives an empty page with `pages` set to
  `Math.ceil(total / 0)`, and a page below 1 gives a negative `skip`; neither
  is modelled.
- CarListing.BuildWhere: a text price argument carries its `Number` and
  `parseFloat` values; decimal parsing is not modelled. A NaN upper bound is
  taken to select no row, as a comparison with NaN is false.
- Home.GetFeaturedCars models the intended serialisation (every view has
  `wishlisted` false); see the findings below for the index the code as
  written passes.
- Home.GetFeaturedCars: `limit` is a natural number. The store's error path,
  which returns an `Error` object instead of throwing, is not modelled.
- Settings.GetDealershipInfo: requires that no hour row already carries the
  fresh dealership id. The store's unique constraint on
  (dealership, day) is not modelled.
- Cars.AddCar: the image upload is one outcome for the first usable image.
  The loop returns after that image, so later images are never uploaded,
  as in the source.
- Cars.GetCarsAdmin models the intended search filter; see the findings
  below for the code as written.
- Cars.DeleteCar: storage removal errors are logged and ignored in the
  source; the model returns the paths handed to storage.
- Text columns are ordered by code point, as under a byte-wise ("C")
  collation. The database's collation is not part of this model, and a
  locale collation may order `distinct` filter values differently.
- Helper.SerializeWith: the `?.` guards on `createdAt` and `updatedAt`
  (an absent stamp serialised as `undefined`) are dropped on purpose: every
  store row carries both stamps.
- CheckUser.CheckUser: the store's refusals are one verdict per call (the
  lookup or the create); their messages, which only reach the log, are not
  modelled.
- Ties in every `orderBy` are broken by a stable insertion sort. The store
  gives no order among equal keys.

## Findings

| source | as written | input that shows it | evidently intended | confidence | as-written member | corrected member |
|---|---|---|---|---|---|---|
| actions/home.js:27 (also actions/cars.js:328) | `cars.map(serializeCarData)` passes the row index as the `wishlisted` argument | two featured cars: the second has `wishlisted: 1`, and the card's `useState(car.wishlisted)` shows it as saved | every car serialised with `wishlisted: false` | high, not executed | Helper.MapSerializeFlagsLaterRows | Helper.SerializeAll |
| actions/cars.js:311-313 | the admin search filter uses the key `contain`, which the store's query validation does not know | any non-empty search, even one that matches a car's make | make, model or colour `contains` the text, ignoring case | high, not executed | Cars.AdminSearchFailsAsWritten | Cars.GetCarsAdmin |
