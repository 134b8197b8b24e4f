/** actions/home.js: the featured cars of the home page and the photo search.
    The rate limiter's verdict, the model call and the JSON parser arrive as
    parameters. */
module Home {
  import opened Common
  import opened Sorting
  import opened Store
  import opened Helper
  import opened AiResponse
  import opened Cars

  // ---------------------------------------------------------------------------
  // getFeaturedCars
  // ---------------------------------------------------------------------------

  predicate Featured(c: Car) {
    c.featured && c.status == AVAILABLE
  }

  function FeaturedRows(cars: seq<Car>): (r: seq<Car>)
    ensures forall c :: c in r <==> c in cars && Featured(c)
    ensures |r| <= |cars|
  {
    if cars == [] then []
    else
      assert cars == [cars[0]] + cars[1..];
      var rest := FeaturedRows(cars[1..]);
      if Featured(cars[0]) then [cars[0]] + rest else rest
  }

  /** The `limit` newest featured, available cars. */
  function NewestFeatured(cars: seq<Car>, limit: nat): (r: seq<Car>)
    ensures |r| == if limit < |FeaturedRows(cars)| then limit else |FeaturedRows(cars)|
    ensures multiset(r) <= multiset(FeaturedRows(cars))
    ensures forall c :: c in r ==> c in cars && Featured(c)
    ensures forall i, j :: 0 <= i < j < |r| ==> r[i].createdAt >= r[j].createdAt
    ensures forall c, i :: c in cars && Featured(c) && 0 <= i < |r| && c.createdAt > r[i].createdAt ==> c in r
  {
    var rows := FeaturedRows(cars);
    var sorted := NewestFirst(rows);
    var r := Take(sorted, limit);
    TakeSubMultiset(sorted, limit);
    TakeFromRows(rows, sorted, limit);
    forall c, i | c in cars && Featured(c) && 0 <= i < |r| && c.createdAt > r[i].createdAt
      ensures c in r
    {
      TakeKeepsNewer(rows, sorted, limit, c, i);
    }
    r
  }

  /** `take` keeps each row at most as often as the input holds it. */
  lemma TakeSubMultiset(sorted: seq<Car>, limit: nat)
    ensures multiset(Take(sorted, limit)) <= multiset(sorted)
  {
    var r := Take(sorted, limit);
    assert sorted == r + sorted[|r|..];
    assert multiset(sorted) == multiset(r) + multiset(sorted[|r|..]);
  }

  lemma TakeFromRows(rows: seq<Car>, sorted: seq<Car>, limit: nat)
    requires multiset(sorted) == multiset(rows)
    ensures forall c :: c in Take(sorted, limit) ==> c in rows
  {
    forall c | c in Take(sorted, limit) ensures c in rows {
      assert c in multiset(sorted);
    }
  }

  /** A row newer than a row kept by `take` is kept as well. */
  lemma TakeKeepsNewer(rows: seq<Car>, sorted: seq<Car>, limit: nat, c: Car, i: nat)
    requires multiset(sorted) == multiset(rows)
    requires forall i, j :: 0 <= i < j < |sorted| ==> sorted[i].createdAt >= sorted[j].createdAt
    requires c in rows && i < |Take(sorted, limit)| && c.createdAt > Take(sorted, limit)[i].createdAt
    ensures c in Take(sorted, limit)
  {
    var r := Take(sorted, limit);
    assert c in multiset(sorted);
    var p :| 0 <= p < |sorted| && sorted[p] == c;
    assert sorted[i] == r[i];
    assert p < i;
    assert r[p] == c;
  }

  ghost predicate ShowsFeatured(v: CarView, cars: seq<Car>) {
    exists c :: c in cars && Featured(c) && v == SerializeDefault(c)
  }

  /** `getFeaturedCars(limit)`: the newest featured, available cars, at most
      `limit` of them; a car left out is no newer than any car shown. */
  function GetFeaturedCars(db: Db, limit: nat): (r: seq<CarView>)
    reads db
    ensures |r| == if limit < |FeaturedRows(db.cars)| then limit else |FeaturedRows(db.cars)|
    ensures exists rows :: multiset(rows) <= multiset(FeaturedRows(db.cars)) && r == SerializeAll(rows)
    ensures forall i :: 0 <= i < |r| ==> ShowsFeatured(r[i], db.cars)
    ensures forall i, j :: 0 <= i < j < |r| ==> r[i].createdAt.instant >= r[j].createdAt.instant
    ensures forall c, i :: c in db.cars && Featured(c) && 0 <= i < |r| && c.createdAt > r[i].createdAt.instant ==>
      SerializeDefault(c) in r
  {
    var rows := NewestFeatured(db.cars, limit);
    FeaturedViews(db.cars, rows);
    SerializeAll(rows)
  }

  lemma FeaturedViews(cars: seq<Car>, rows: seq<Car>)
    requires forall c :: c in rows ==> c in cars && Featured(c)
    requires forall c, i :: c in cars && Featured(c) && 0 <= i < |rows| && c.createdAt > rows[i].createdAt ==> c in rows
    ensures forall i :: 0 <= i < |rows| ==> ShowsFeatured(SerializeAll(rows)[i], cars)
    ensures forall c, i :: c in cars && Featured(c) && 0 <= i < |rows| && c.createdAt > SerializeAll(rows)[i].createdAt.instant ==>
      SerializeDefault(c) in SerializeAll(rows)
  {
    var r := SerializeAll(rows);
    forall i | 0 <= i < |r| ensures ShowsFeatured(r[i], cars) {
      assert rows[i] in rows;
    }
    forall c, i | c in cars && Featured(c) && 0 <= i < |r| && c.createdAt > r[i].createdAt.instant
      ensures SerializeDefault(c) in r
    {
      assert r[i].createdAt.instant == rows[i].createdAt;
      assert c in rows;
      var k :| 0 <= k < |rows| && rows[k] == c;
      assert r[k] == SerializeDefault(c);
    }
  }

  /** The home page's default: three cars. */
  const FEATURED_DEFAULT: nat := 3

  // ---------------------------------------------------------------------------
  // processImageSearch
  // ---------------------------------------------------------------------------

  /** The rate limiter's verdict on the request. */
  datatype Decision = Allowed | RateLimited | Blocked

  const SEARCH_ERROR := "AI Search error:"

  /** `processImageSearch(file)`: a denied request or a missing key is thrown
      with the `AI Search error:` prefix; a reply that parses is returned as
      it is, whatever its shape. */
  function ProcessImageSearch(decision: Decision, keyConfigured: bool, reply: ModelReply,
                              parse: string -> Option<Json>): (r: Reply<Json>)
    ensures decision == RateLimited ==> r == Raise(SEARCH_ERROR + "Too many request. Please try again later")
    ensures decision == Blocked ==> r == Raise(SEARCH_ERROR + "Request blocked")
    ensures decision == Allowed && !keyConfigured ==> r == Raise(SEARCH_ERROR + NO_API_KEY)
    ensures decision == Allowed && keyConfigured && reply.ModelError? ==> r == Raise(SEARCH_ERROR + reply.message)
    ensures r.Ok? <==> decision == Allowed && keyConfigured && reply.Text? && parse(Clean(reply.text)).Some?
    ensures r.Ok? ==> r.data == parse(Clean(reply.text)).value
    ensures r.Fail? ==> r.error == PARSE_FAILED
  {
    match decision
    case RateLimited => Raise(SEARCH_ERROR + "Too many request. Please try again later")
    case Blocked => Raise(SEARCH_ERROR + "Request blocked")
    case Allowed =>
      if !keyConfigured then Raise(SEARCH_ERROR + NO_API_KEY)
      else match reply
        case ModelError(m) => Raise(SEARCH_ERROR + m)
        case Text(t) =>
          match parse(Clean(t))
          case None => Fail(PARSE_FAILED)
          case Some(j) => Ok(j)
  }

  /** A reply the car form accepts is accepted by the search with the same
      data; the search checks no fields, so the converse fails. */
  lemma SearchAcceptsCarFormReplies(keyConfigured: bool, reply: ModelReply, parse: string -> Option<Json>)
    ensures ProcessCarImageWithAI(keyConfigured, reply, parse).Ok? ==>
      ProcessImageSearch(Allowed, keyConfigured, reply, parse) == ProcessCarImageWithAI(keyConfigured, reply, parse)
  {
  }

  /** A search reply holding only a make is accepted by the search and
      refused by the car form. */
  lemma SearchAcceptsWhatCarFormRefuses(parse: string -> Option<Json>)
    requires parse(MAKE_ONLY) == Some(JObject([("make", JString("BMW"))]))
    ensures ProcessImageSearch(Allowed, true, Text(MAKE_ONLY), parse).Ok?
    ensures ProcessCarImageWithAI(true, Text(MAKE_ONLY), parse) == Fail(PARSE_FAILED)
  {
    MakeOnlyIsClean();
    var fields := [("make", JString("BMW"))];
    assert !HasField(fields, "model");
    assert "model" in REQUIRED;
  }

  /** A model reply naming only the make. */
  const MAKE_ONLY := "{\"make\":\"BMW\"}"

  lemma MakeOnlyIsClean()
    ensures Clean(MAKE_ONLY) == MAKE_ONLY
  {
    assert forall i :: 0 <= i < |MAKE_ONLY| ==> MAKE_ONLY[i] != '`';
    StripFencesKeepsPlainText(MAKE_ONLY);
    assert !IsSpace(MAKE_ONLY[0]) && !IsSpace(MAKE_ONLY[|MAKE_ONLY| - 1]);
    TrimKeeps(MAKE_ONLY);
  }
}
