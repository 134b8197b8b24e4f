/** lib/checkUser.js: on each page load the signed-in identity is matched to
    a store user, and a first visit creates one. */
module CheckUser {
  import opened Common
  import opened Store

  /** The signed-in identity as the identity provider describes it; a missing
      first or last name is `null`. */
  datatype Identity = Identity(
    id: string, firstName: Option<string>, lastName: Option<string>,
    imageUrl: string, emailAddresses: seq<string>)

  /** What `checkUser` resolves to: `null` when signed out, the store user, or
      `undefined` when the `try` block threw. */
  datatype Checked = SignedOut | Known(user: User) | Undefined

  /** A name part as a template literal renders it. */
  function Part(p: Option<string>): string {
    match p
    case Some(s) => s
    case None => "null"
  }

  /** `${firstName} ${lastName}`. */
  function FullName(who: Identity): (name: string)
    ensures |name| == |Part(who.firstName)| + 1 + |Part(who.lastName)|
    ensures name[..|Part(who.firstName)|] == Part(who.firstName)
    ensures name[|Part(who.firstName)|] == ' '
    ensures name[|Part(who.firstName)| + 1..] == Part(who.lastName)
  {
    Part(who.firstName) + " " + Part(who.lastName)
  }

  /** The row `db.user.create` writes; role and phone take the schema
      defaults, the store stamps both timestamps. */
  function NewUser(id: Id, who: Identity, now: int): (u: User)
    requires who.emailAddresses != []
    ensures u.id == id && u.clerkUserId == who.id && u.role == USER
    ensures u.email == who.emailAddresses[0] && u.name == Some(FullName(who))
  {
    User(id, who.id, who.emailAddresses[0], Some(FullName(who)), Some(who.imageUrl), None, USER, now, now)
  }

  /** Appending a user whose id and sign-in id are both new keeps the store well formed. */
  lemma NewUserKeepsValid(users: seq<User>, cars: seq<Car>, saved: seq<SavedCar>, bookings: seq<Booking>, u: User)
    requires WellFormed(users, cars, saved, bookings)
    requires u.id !in UserIds(users)
    requires forall x :: x in users ==> x.clerkUserId != u.clerkUserId
    ensures WellFormed(users + [u], cars, saved, bookings)
    ensures UserByClerk(users + [u], u.clerkUserId) == Some(u)
  {
    var r := users + [u];
    forall i, j | 0 <= i < j < |r| ensures r[i].id != r[j].id && r[i].clerkUserId != r[j].clerkUserId {
      if j == |users| {
        assert r[i] in users;
      } else {
        assert r[i] == users[i] && r[j] == users[j];
      }
    }
    assert UserIds(r) == UserIds(users) + {u.id};
    ClerkAfterAppend(users, u);
  }

  lemma {:induction false} ClerkAfterAppend(users: seq<User>, u: User)
    requires forall x :: x in users ==> x.clerkUserId != u.clerkUserId
    ensures UserByClerk(users + [u], u.clerkUserId) == Some(u)
  {
    if users != [] {
      assert (users + [u])[1..] == users[1..] + [u];
      ClerkAfterAppend(users[1..], u);
    } else {
      assert users + [u] == [u];
    }
  }

  /** The store's verdict on the two statements of `checkUser()`: it may
      refuse the lookup or the create (a unique-key conflict, a lost
      connection), and either refusal reaches the `catch`. */
  datatype StoreVerdict = Accepts | RefusesLookup | RefusesCreate

  /** `checkUser()`. `newId` is the fresh id the store assigns, `now` the
      clock reading and `verdict` the store's answer. An identity without an
      email address makes the creation throw; that and every refusal of the
      store are turned into `undefined` by the `catch`, with no row written. */
  method CheckUser(db: Db, who: Option<Identity>, newId: Id, now: int, verdict: StoreVerdict) returns (r: Checked)
    modifies db
    requires db.Valid()
    requires newId !in UserIds(db.users)
    ensures db.Valid()
    ensures db.cars == old(db.cars) && db.saved == old(db.saved) && db.bookings == old(db.bookings)
    ensures db.dealerships == old(db.dealerships) && db.hours == old(db.hours)
    ensures !r.Known? ==> db.users == old(db.users)
    ensures who.None? ==> r == SignedOut
    ensures who.Some? && verdict == RefusesLookup ==> r == Undefined
    ensures who.Some? && verdict != RefusesLookup && old(UserByClerk(db.users, who.value.id)).Some? ==>
      r == Known(old(UserByClerk(db.users, who.value.id)).value) && db.users == old(db.users)
    ensures who.Some? && verdict != RefusesLookup && old(UserByClerk(db.users, who.value.id)).None? ==>
      (r == Undefined <==> who.value.emailAddresses == [] || verdict == RefusesCreate)
    ensures who.Some? && verdict == Accepts && old(UserByClerk(db.users, who.value.id)).None? && who.value.emailAddresses != [] ==>
      r == Known(NewUser(newId, who.value, now)) && db.users == old(db.users) + [NewUser(newId, who.value, now)]
    ensures r.Known? ==> db.CallerUser(Some(who.value.id)) == Some(r.user)
  {
    if who.None? {
      return SignedOut;
    }
    if verdict == RefusesLookup {
      return Undefined;
    }
    var identity := who.value;
    var found := UserByClerk(db.users, identity.id);
    if found.Some? {
      return Known(found.value);
    }
    if identity.emailAddresses == [] || verdict == RefusesCreate {
      return Undefined;
    }
    var u := NewUser(newId, identity, now);
    NewUserKeepsValid(db.users, db.cars, db.saved, db.bookings, u);
    db.users := db.users + [u];
    r := Known(u);
  }

  /** Once a user exists for an identity, checking again finds the same row:
      the first visit's creation happens once. */
  lemma SecondVisitFindsFirst(users: seq<User>, who: Identity, newId: Id, now: int)
    requires UsersKeyed(users)
    requires forall x :: x in users ==> x.clerkUserId != who.id
    requires who.emailAddresses != []
    ensures UserByClerk(users + [NewUser(newId, who, now)], who.id) == Some(NewUser(newId, who, now))
  {
    ClerkAfterAppend(users, NewUser(newId, who, now));
  }
}
