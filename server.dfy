/** The Express server's state and routes: the two tables as fields of one
    store, each route a method that changes them, and the chat route tying
    its reply and its insert to the pure handler of the `Assistant` module. */
module Server {
  import opened Wrappers
  import opened Seqs
  import opened Text
  import opened Catalog
  import opened Resolvers
  import opened Tables
  import opened Assistant

  /** The error bodies the routes answer with. */
  datatype ApiError =
    | EmailAlreadyRegistered   // 400 on signup
    | InvalidCredentials       // 401 on login
    | SlotsAlreadyBooked       // 400 on POST /api/bookings
    | AdminAccessRequired      // 403 from the `isAdmin` guard

  /** POST `/auth/login` against a table of users: the first row with the
      email, accepted when `verify` (bcrypt's compare of the plain password
      with the stored hash) holds. */
  function LoginUser(users: seq<User>, email: string, password: string,
                     verify: (string, string) -> bool): (r: Result<User, ApiError>)
    ensures r.Ok? ==> r.value in users && r.value.email == email && verify(password, r.value.password)
    ensures r.Err? ==> r.error == InvalidCredentials
    ensures !EmailTaken(users, email) ==> r.Err?
    ensures UniqueEmails(users) ==>
              forall u :: u in users && u.email == email ==> (r.Ok? <==> verify(password, u.password))
  {
    match FindByEmail(users, email)
    case None => Err(InvalidCredentials)
    case Some(u) => if verify(password, u.password) then Ok(u) else Err(InvalidCredentials)
  }

  /** `isAdmin`: the token's role must be `admin`. */
  predicate IsAdmin(who: Identity)
    ensures !IsAdmin(who) ==> who.role == Member
  {
    who.role == Admin
  }

  class Store {
    var users: seq<User>
    var bookings: seq<Booking>
    /** The next values of the two tables' serial `id` columns. */
    var nextUserId: nat
    var nextBookingId: nat

    /** Emails are unique, every id is below its counter, no two bookings
        share an id, and no two bookings of a hall and date share a slot. */
    ghost predicate Valid()
      reads this
    {
      && UniqueEmails(users)
      && (forall u :: u in users ==> u.id < nextUserId)
      && (forall b :: b in bookings ==> b.id < nextBookingId)
      && UniqueIds(bookings)
      && NoDoubleBooking(bookings)
    }

    /** An empty database. */
    constructor ()
      ensures Valid()
      ensures users == [] && bookings == []
    {
      users := [];
      bookings := [];
      nextUserId := 1;
      nextBookingId := 1;
    }

    /** POST `/auth/signup`: refused when the email is registered, else a new
        row with role `user`. `hashed` is the bcrypt hash of the password. */
    method Signup(name: string, email: string, phone: string, hashed: string)
      returns (r: Result<User, ApiError>)
      requires Valid()
      modifies this
      ensures Valid()
      ensures EmailTaken(old(users), email) ==>
                r == Err(EmailAlreadyRegistered) && users == old(users) && nextUserId == old(nextUserId)
      ensures !EmailTaken(old(users), email) ==>
                && r == Ok(User(old(nextUserId), name, email, phone, hashed, Member))
                && users == old(users) + [r.value]
                && nextUserId == old(nextUserId) + 1
      ensures bookings == old(bookings) && nextBookingId == old(nextBookingId)
    {
      if FindByEmail(users, email).Some? {
        return Err(EmailAlreadyRegistered);
      }
      var u := User(nextUserId, name, email, phone, hashed, Member);
      AppendKeepsUniqueEmails(users, u);
      users := users + [u];
      nextUserId := nextUserId + 1;
      r := Ok(u);
    }

    /** POST `/api/bookings`: refused when a row at the hall and date shares
        a slot with the request, else the row is inserted as given. */
    method CreateBooking(who: Identity, hall: string, date: Day, slots: seq<string>, purpose: string)
      returns (r: Result<Booking, ApiError>)
      requires Valid()
      modifies this
      ensures Valid()
      ensures (exists b :: b in old(bookings) && IsAt(b, hall, date) && Overlaps(b.slots, slots)) ==>
                r == Err(SlotsAlreadyBooked) && bookings == old(bookings) && nextBookingId == old(nextBookingId)
      ensures (forall b :: b in old(bookings) && IsAt(b, hall, date) ==> !Overlaps(b.slots, slots)) ==>
                && r == Ok(Booking(old(nextBookingId), who.userId, hall, date, slots, purpose))
                && bookings == old(bookings) + [r.value]
                && nextBookingId == old(nextBookingId) + 1
      ensures users == old(users) && nextUserId == old(nextUserId)
    {
      var conflicts := ConflictRows(bookings, hall, date, slots);
      if |conflicts| > 0 {
        return Err(SlotsAlreadyBooked);
      }
      var b := Booking(nextBookingId, who.userId, hall, date, slots, purpose);
      InsertKeepsNoDoubleBooking(bookings, b);
      AppendFreshKeepsUniqueIds(bookings, b);
      bookings := bookings + [b];
      nextBookingId := nextBookingId + 1;
      r := Ok(b);
    }

    /** DELETE `/api/bookings/:id`: removes the row only when it belongs to
        the caller; the reply is a success either way. */
    method DeleteBooking(who: Identity, id: nat)
      requires Valid()
      modifies this
      ensures Valid()
      ensures bookings == WithoutOwned(old(bookings), id, who.userId)
      ensures users == old(users) && nextUserId == old(nextUserId) && nextBookingId == old(nextBookingId)
    {
      SubsetKeepsNoDoubleBooking(bookings, WithoutOwned(bookings, id, who.userId));
      bookings := WithoutOwned(bookings, id, who.userId);
    }

    /** DELETE `/admin/users/:id`: refused to non-admins; otherwise removes
        the row with that id unless it is an administrator's. */
    method DeleteUser(who: Identity, id: nat) returns (r: Result<(), ApiError>)
      requires Valid()
      modifies this
      ensures Valid()
      ensures !IsAdmin(who) ==> r == Err(AdminAccessRequired) && users == old(users)
      ensures IsAdmin(who) ==> r == Ok(()) && users == WithoutMember(old(users), id)
      ensures bookings == old(bookings) && nextUserId == old(nextUserId) && nextBookingId == old(nextBookingId)
    {
      if !IsAdmin(who) {
        return Err(AdminAccessRequired);
      }
      users := WithoutMember(users, id);
      r := Ok(());
    }

    /** The availability branch of the chat handler on the normalized message. */
    method ChatAvailability(l: string, today: Day) returns (reply: Reply)
      ensures reply == AvailabilityReply(bookings, l, today)
    {
      var hall := ExtractHall(l);
      var date := ParseDate(l, today);
      if hall != "" && date.Some? {
        var booked := BookedSlots(bookings, hall, date.value);
        reply := AvailabilityChecked(hall, date.value, AvailableSlots(booked), booked);
      } else {
        reply := NeedInfoForAvailability;
      }
    }

    /** The booking branch of the chat handler on the normalized message: the
        row is inserted exactly when the reply is `booked`. */
    method ChatBooking(who: Identity, l: string, today: Day) returns (reply: Reply)
      requires Valid()
      modifies this
      ensures Valid()
      ensures reply == BookingOutcome(old(bookings), old(nextBookingId), who.userId, l, today)
      ensures reply.Booked? ==>
                bookings == old(bookings) + [reply.booking] && nextBookingId == old(nextBookingId) + 1
      ensures !reply.Booked? ==> bookings == old(bookings) && nextBookingId == old(nextBookingId)
      ensures users == old(users) && nextUserId == old(nextUserId)
    {
      var hall := ExtractHall(l);
      var date := ParseDate(l, today);
      var slots := ParseTime(l);
      var purpose := ExtractPurpose(l);
      if hall != "" && date.Some? && |slots| > 0 && purpose != "" {
        var conflicts := ConflictRows(bookings, hall, date.value, slots);
        if |conflicts| > 0 {
          var taken := SlotsOf(conflicts);
          reply := SlotConflict(taken, Filter(slots, NotIn(taken)));
        } else {
          var b := Booking(nextBookingId, who.userId, hall, date.value, slots, purpose);
          InsertKeepsNoDoubleBooking(bookings, b);
          AppendFreshKeepsUniqueIds(bookings, b);
          bookings := bookings + [b];
          nextBookingId := nextBookingId + 1;
          reply := Booked(b, SlotsSummary(slots));
        }
      } else {
        reply := NeedMoreInfo(MissingInfo(hall == "", date.None?, |slots| == 0, purpose == ""));
      }
    }

    /** POST `/api/ai-chat`: the reply is the pure handler's on the rows as
        they were, and the table changes only by the row a `booked` reply
        carries. */
    method Chat(who: Identity, message: string, today: Day) returns (reply: Reply)
      requires Valid()
      modifies this
      ensures Valid()
      ensures reply == Respond(old(bookings), old(nextBookingId), who, message, today)
      ensures reply.Booked? ==>
                bookings == old(bookings) + [reply.booking] && nextBookingId == old(nextBookingId) + 1
      ensures !reply.Booked? ==> bookings == old(bookings) && nextBookingId == old(nextBookingId)
      ensures users == old(users) && nextUserId == old(nextUserId)
    {
      var intent := Classify(message);
      var l := Normalize(message);
      match intent {
        case Blank => reply := Welcome;
        case Thanks => reply := YoureWelcome;
        case ViewBookings => reply := BookingList(UpcomingFor(bookings, who.userId, today));
        case CheckAvailability => reply := ChatAvailability(l, today);
        case CreateBooking => reply := ChatBooking(who, l, today);
        case Greeting => reply := Hello;
        case Help => reply := HelpText;
        case Fallback => reply := Introduction;
      }
    }
  }
}
