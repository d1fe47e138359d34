/** The rule-based chat assistant behind POST `/api/ai-chat`: an ordered
    intent dispatcher, and for the availability and booking intents the
    structured reply the handler sends back (the action tag and fields). */
module Assistant {
  import opened Wrappers
  import opened Seqs
  import opened Text
  import opened Catalog
  import opened Resolvers
  import opened Tables

  /** The identity the bearer token carries. */
  datatype Identity = Identity(userId: nat, name: string, role: Role)

  // ----- Intent dispatch

  datatype Intent = Blank | Thanks | ViewBookings | CheckAvailability | CreateBooking | Greeting | Help | Fallback

  /** `/^(thanks|thank you|thankyou|thx)/`. */
  predicate ThanksPrefix(l: string)
  {
    StartsWith(l, "thanks") || StartsWith(l, "thank you") || StartsWith(l, "thankyou") || StartsWith(l, "thx")
  }

  predicate ViewBookingsPhrase(l: string)
  {
    Contains(l, "my bookings") || Contains(l, "show my bookings") || Contains(l, "view bookings")
    || Contains(l, "are you booked") || (Contains(l, "show") && Contains(l, "booking"))
  }

  predicate AvailabilityPhrase(l: string)
  {
    Contains(l, "check availability") || Contains(l, "available") || Contains(l, "is available")
    || Contains(l, "availability") || Contains(l, "check avail")
  }

  predicate BookingPhrase(l: string)
  {
    Contains(l, "book") || Contains(l, "booking") || Contains(l, "reserve") || Contains(l, "schedule")
  }

  /** `/^(hi|hello|hey|greetings)/`. */
  predicate GreetingPrefix(l: string)
  {
    StartsWith(l, "hi") || StartsWith(l, "hello") || StartsWith(l, "hey") || StartsWith(l, "greetings")
  }

  predicate HelpPhrase(l: string)
  {
    Contains(l, "what can you do") || Contains(l, "help") || Contains(l, "what help")
  }

  /** `message.toLowerCase().trim()`. */
  function Normalize(message: string): (r: string)
    ensures |r| <= |message|
    ensures ToLower(r) == r
    ensures r == [] || (!IsSpace(r[0]) && !IsSpace(r[|r| - 1]))
    ensures r == [] <==> forall i :: 0 <= i < |message| ==> IsSpace(message[i])
  {
    TrimOfLowerIsLower(message);
    TrimEmptyIffBlank(ToLower(message));
    ToLowerKeepsSpaces(message);
    Trim(ToLower(message))
  }

  /** The handler's if-chain on the normalized message: the first test that
      holds decides the intent. */
  function Dispatch(l: string): (r: Intent)
    ensures r != Blank
    ensures r == Fallback <==>
      !ThanksPrefix(l) && !ViewBookingsPhrase(l) && !AvailabilityPhrase(l)
      && !BookingPhrase(l) && !GreetingPrefix(l) && !HelpPhrase(l)
  {
    if ThanksPrefix(l) then Thanks
    else if ViewBookingsPhrase(l) then ViewBookings
    else if AvailabilityPhrase(l) then CheckAvailability
    else if BookingPhrase(l) then CreateBooking
    else if GreetingPrefix(l) then Greeting
    else if HelpPhrase(l) then Help
    else Fallback
  }

  /** An empty or all-blank message short-circuits to the welcome reply. */
  function Classify(message: string): (r: Intent)
    ensures r == Blank <==> forall i :: 0 <= i < |message| ==> IsSpace(message[i])
  {
    TrimEmptyIffBlank(message);
    if |Trim(message)| == 0 then Blank else Dispatch(Normalize(message))
  }

  /** The same dispatch as one ordered table of (test, intent) rules. */
  const RULES: seq<(string -> bool, Intent)> :=
    [(ThanksPrefix, Thanks), (ViewBookingsPhrase, ViewBookings), (AvailabilityPhrase, CheckAvailability),
     (BookingPhrase, CreateBooking), (GreetingPrefix, Greeting), (HelpPhrase, Help)]

  /** The intent of the first rule whose test holds, `Fallback` when none does. */
  function FirstMatch(rules: seq<(string -> bool, Intent)>, l: string): Intent
  {
    if rules == [] then Fallback
    else if rules[0].0(l) then rules[0].1
    else FirstMatch(rules[1..], l)
  }

  lemma {:induction false} FirstMatchIsFirst(rules: seq<(string -> bool, Intent)>, l: string, k: nat)
    requires k < |rules| && rules[k].0(l)
    requires forall j :: 0 <= j < k ==> !rules[j].0(l)
    ensures FirstMatch(rules, l) == rules[k].1
  {
    if k > 0 {
      assert !rules[0].0(l);
      FirstMatchIsFirst(rules[1..], l, k - 1);
    }
  }

  lemma {:induction false} FirstMatchNone(rules: seq<(string -> bool, Intent)>, l: string)
    requires forall j :: 0 <= j < |rules| ==> !rules[j].0(l)
    ensures FirstMatch(rules, l) == Fallback
  {
    if rules != [] {
      assert !rules[0].0(l);
      FirstMatchNone(rules[1..], l);
    }
  }

  /** Exactly one branch answers: the if-chain is the first rule of the
      ordered table whose test holds. */
  lemma DispatchIsFirstMatch(l: string)
    ensures Dispatch(l) == FirstMatch(RULES, l)
  {
    if ThanksPrefix(l) { FirstMatchIsFirst(RULES, l, 0); }
    else if ViewBookingsPhrase(l) { FirstMatchIsFirst(RULES, l, 1); }
    else if AvailabilityPhrase(l) { FirstMatchIsFirst(RULES, l, 2); }
    else if BookingPhrase(l) { FirstMatchIsFirst(RULES, l, 3); }
    else if GreetingPrefix(l) { FirstMatchIsFirst(RULES, l, 4); }
    else if HelpPhrase(l) { FirstMatchIsFirst(RULES, l, 5); }
    else { FirstMatchNone(RULES, l); }
  }

  /** An availability phrase is tested before a booking phrase: "is the hall
      available, I want to book it" is an availability check. */
  lemma AvailabilityBeatsBooking(message: string)
    requires |Trim(message)| != 0
    requires !ThanksPrefix(Normalize(message)) && !ViewBookingsPhrase(Normalize(message))
    requires AvailabilityPhrase(Normalize(message))
    ensures Classify(message) == CheckAvailability
  {
  }

  // ----- Availability

  /** The test `slot => !xs.includes(slot)`. */
  function NotIn(xs: seq<string>): string -> bool
  {
    s => s !in xs
  }

  predicate InMorning(s: string)
  {
    s in MORNING_SLOTS
  }

  predicate InAfternoon(s: string)
  {
    s in AFTERNOON_SLOTS
  }

  /** `ALL_SLOTS.filter(slot => !bookedSlots.includes(slot))`. */
  function AvailableSlots(booked: seq<string>): (r: seq<string>)
    ensures forall s :: s in r <==> s in ALL_SLOTS && s !in booked
  {
    Filter(ALL_SLOTS, NotIn(booked))
  }

  /** `availableSlots.filter(slot => MORNING_SLOTS.includes(slot))`: the
      morning slots of the list, in the list's order. */
  function MorningGroup(available: seq<string>): (r: seq<string>)
    ensures forall s :: s in r <==> s in available && s in MORNING_SLOTS
    ensures IsSubsequence(r, available)
  {
    FilterIsSubsequence(available, InMorning);
    Filter(available, InMorning)
  }

  /** `availableSlots.filter(slot => AFTERNOON_SLOTS.includes(slot))`. */
  function AfternoonGroup(available: seq<string>): (r: seq<string>)
    ensures forall s :: s in r <==> s in available && s in AFTERNOON_SLOTS
    ensures IsSubsequence(r, available)
  {
    FilterIsSubsequence(available, InAfternoon);
    Filter(available, InAfternoon)
  }

  /** A morning-only list followed by an afternoon-only list splits back
      into the two by the group tests. */
  lemma GroupsSplit(m: seq<string>, a: seq<string>)
    requires forall x :: x in m ==> x in MORNING_SLOTS
    requires forall x :: x in a ==> x in AFTERNOON_SLOTS
    ensures MorningGroup(m + a) == m && AfternoonGroup(m + a) == a
  {
    CatalogShape();
    FilterConcat(m, a, InMorning);
    FilterConcat(m, a, InAfternoon);
    FilterKeepsAll(m, InMorning);
    FilterDropsAll(a, InMorning);
    FilterKeepsAll(a, InAfternoon);
    FilterDropsAll(m, InAfternoon);
  }

  /** The free slots keep catalog order. */
  lemma AvailableInCatalogOrder(booked: seq<string>)
    ensures IsSubsequence(AvailableSlots(booked), ALL_SLOTS)
  {
    FilterIsSubsequence(ALL_SLOTS, NotIn(booked));
  }

  /** The morning and afternoon groups the availability reply shows split the
      free slots exactly: the free morning slots, then the free afternoon ones. */
  lemma AvailabilityPartition(booked: seq<string>)
    ensures MorningGroup(AvailableSlots(booked)) + AfternoonGroup(AvailableSlots(booked)) == AvailableSlots(booked)
    ensures MorningGroup(AvailableSlots(booked)) == Filter(MORNING_SLOTS, NotIn(booked))
    ensures AfternoonGroup(AvailableSlots(booked)) == Filter(AFTERNOON_SLOTS, NotIn(booked))
  {
    var m := Filter(MORNING_SLOTS, NotIn(booked));
    var a := Filter(AFTERNOON_SLOTS, NotIn(booked));
    FilterConcat(MORNING_SLOTS, AFTERNOON_SLOTS, NotIn(booked));
    GroupsSplit(m, a);
  }

  // ----- Booking

  /** `missingInfo`: which of hall, date, time and purpose the message left unresolved. */
  datatype MissingInfo = MissingInfo(hall: bool, date: bool, time: bool, purpose: bool)

  /** The reply payload: its action tag and structured fields (the prose is not modelled). */
  datatype Reply =
    | Welcome                                      // blank message
    | YoureWelcome                                 // thanks
    | BookingList(bookings: seq<Booking>)
    | AvailabilityChecked(hall: string, date: Day, availableSlots: seq<string>, bookedSlots: seq<string>)
    | NeedInfoForAvailability
    | SlotConflict(conflictSlots: seq<string>, availableSlots: seq<string>)
    | Booked(booking: Booking, slotsDisplay: string)
    | NeedMoreInfo(missingInfo: MissingInfo)
    | Hello
    | HelpText
    | Introduction                                 // default reply

  /** The `action` field of the reply (`None` is JavaScript `null`). */
  function Action(r: Reply): (a: Option<string>)
    ensures a.None? <==> r.Welcome? || r.YoureWelcome? || r.Hello? || r.HelpText? || r.Introduction?
  {
    match r
    case BookingList(_) => Some("view_bookings")
    case AvailabilityChecked(_, _, _, _) => Some("availability_checked")
    case NeedInfoForAvailability => Some("need_info_for_availability")
    case SlotConflict(_, _) => Some("conflict")
    case Booked(_, _) => Some("booked")
    case NeedMoreInfo(_) => Some("need_more_info")
    case _ => None
  }

  /** The time line of the confirmation: collapsed by length (and group
      membership for the two eight-slot groups), else a comma-separated list. */
  function SlotsSummary(slots: seq<string>): (r: string)
    ensures slots == ALL_SLOTS ==> r == "Full day (all slots)"
    ensures slots == MORNING_SLOTS ==> r == "All morning slots"
    ensures slots == AFTERNOON_SLOTS ==> r == "All afternoon slots"
    ensures |slots| < |MORNING_SLOTS| ==> r == Join(slots, ", ")
  {
    assert "1:00 - 1:30" in AFTERNOON_SLOTS && "1:00 - 1:30" !in MORNING_SLOTS;
    if |slots| == |ALL_SLOTS| then "Full day (all slots)"
    else if |slots| == |MORNING_SLOTS| && (forall s :: s in slots ==> s in MORNING_SLOTS) then "All morning slots"
    else if |slots| == |AFTERNOON_SLOTS| && (forall s :: s in slots ==> s in AFTERNOON_SLOTS) then "All afternoon slots"
    else Join(slots, ", ")
  }

  /** For every slot list the resolver can produce, the summary collapses
      exactly the full day and the two groups and lists anything else. */
  lemma SummaryOfParsedSlots(text: string)
    ensures var r := ParseTime(text);
      (SlotsSummary(r) == "Full day (all slots)" <==> r == ALL_SLOTS)
      && (SlotsSummary(r) == "All morning slots" <==> r == MORNING_SLOTS)
      && (SlotsSummary(r) == "All afternoon slots" <==> r == AFTERNOON_SLOTS)
      && (r != ALL_SLOTS && r != MORNING_SLOTS && r != AFTERNOON_SLOTS ==> SlotsSummary(r) == Join(r, ", "))
  {
    var r := ParseTime(text);
    CatalogShape();
    if r == TEN_OCLOCK_SLOTS {
      assert "10:00 - 10:30" !in AFTERNOON_SLOTS;
      assert SlotsSummary(r) == "10:00 - 10:30" + ", " + "10:30 - 11:00";
    } else if r == HALF_PAST_ELEVEN_SLOTS {
      assert SlotsSummary(r) == "11:30 - 12:00";
    } else if r == MORNING_SLOTS {
      assert forall s :: s in r ==> s in MORNING_SLOTS;
    } else if r == AFTERNOON_SLOTS {
      assert "1:00 - 1:30" in r && "1:00 - 1:30" !in MORNING_SLOTS;
    }
  }

  /** The booking branch once hall, date, slots and purpose are extracted:
      the conflict check, the insert, or the request for missing details. */
  function BookingDecision(rows: seq<Booking>, nextId: nat, userId: nat,
                           hall: string, date: Option<Day>, slots: seq<string>, purpose: string): (r: Reply)
    ensures r.SlotConflict? || r.Booked? || r.NeedMoreInfo?
    ensures r.SlotConflict? ==> date.Some? && ConflictRows(rows, hall, date.value, slots) != []
  {
    if hall != "" && date.Some? && |slots| > 0 && purpose != "" then
      var conflicts := ConflictRows(rows, hall, date.value, slots);
      if |conflicts| > 0 then
        var taken := SlotsOf(conflicts);
        SlotConflict(taken, Filter(slots, NotIn(taken)))
      else
        Booked(Booking(nextId, userId, hall, date.value, slots, purpose), SlotsSummary(slots))
    else
      NeedMoreInfo(MissingInfo(hall == "", date.None?, |slots| == 0, purpose == ""))
  }

  /** The booking branch of the handler on the normalized message `l`. */
  function BookingOutcome(rows: seq<Booking>, nextId: nat, userId: nat, l: string, today: Day): (r: Reply)
    ensures r.SlotConflict? || r.Booked? || r.NeedMoreInfo?
    ensures r.Booked? ==>
      && r.booking.hall == HallOf(l) && Some(r.booking.date) == ParseDate(l, today)
      && r.booking.slots == ParseTime(l) && r.booking.purpose == ExtractPurpose(l)
      && r.booking.id == nextId && r.booking.userId == userId
  {
    BookingDecision(rows, nextId, userId, HallOf(l), ParseDate(l, today), ParseTime(l), ExtractPurpose(l))
  }

  /** The availability branch of the handler on the normalized message `l`. */
  function AvailabilityReply(rows: seq<Booking>, l: string, today: Day): (r: Reply)
    ensures r.AvailabilityChecked? || r.NeedInfoForAvailability?
    ensures r.AvailabilityChecked? <==> HallOf(l) != "" && ParseDate(l, today).Some?
    ensures r.AvailabilityChecked? ==>
      && r.hall in HALLS && Some(r.date) == ParseDate(l, today)
      && (forall s :: s in r.bookedSlots <==> exists b :: b in rows && IsAt(b, r.hall, r.date) && s in b.slots)
      && (forall s :: s in r.availableSlots <==> s in ALL_SLOTS && s !in r.bookedSlots)
    ensures r.AvailabilityChecked? ==> r.availableSlots == AvailableSlots(r.bookedSlots)
  {
    var hall := HallOf(l);
    var date := ParseDate(l, today);
    if hall != "" && date.Some? then
      var booked := BookedSlots(rows, hall, date.value);
      AvailabilityChecked(hall, date.value, AvailableSlots(booked), booked)
    else NeedInfoForAvailability
  }

  /** The reply for a classified message: the normalized text `l` feeds the
      availability and booking branches; the others answer with fixed text. */
  function ReplyTo(intent: Intent, rows: seq<Booking>, nextId: nat, who: Identity, l: string, today: Day): (r: Reply)
    ensures r.SlotConflict? || r.Booked? || r.NeedMoreInfo? <==> intent == CreateBooking
    ensures r.AvailabilityChecked? || r.NeedInfoForAvailability? <==> intent == CheckAvailability
    ensures r.BookingList? <==> intent == ViewBookings
    ensures Action(r).None? <==> intent in {Blank, Thanks, Greeting, Help, Fallback}
  {
    match intent
    case Blank => Welcome
    case Thanks => YoureWelcome
    case ViewBookings => BookingList(UpcomingFor(rows, who.userId, today))
    case CheckAvailability => AvailabilityReply(rows, l, today)
    case CreateBooking => BookingOutcome(rows, nextId, who.userId, l, today)
    case Greeting => Hello
    case Help => HelpText
    case Fallback => Introduction
  }

  /** The reply POST `/api/ai-chat` sends for `message`, given the stored rows:
      its kind is decided by the intent alone. */
  function Respond(rows: seq<Booking>, nextId: nat, who: Identity, message: string, today: Day): (r: Reply)
    ensures r.SlotConflict? || r.Booked? || r.NeedMoreInfo? <==> Classify(message) == CreateBooking
    ensures r.AvailabilityChecked? || r.NeedInfoForAvailability? <==> Classify(message) == CheckAvailability
    ensures Action(r).None? <==> Classify(message) in {Blank, Thanks, Greeting, Help, Fallback}
  {
    ReplyTo(Classify(message), rows, nextId, who, Normalize(message), today)
  }

  /** `s` is a slot of some stored row at the hall and date that shares a
      slot with the request. */
  predicate ConflictSlot(rows: seq<Booking>, hall: string, date: Day, slots: seq<string>, s: string)
  {
    exists b :: b in rows && IsAt(b, hall, date) && Overlaps(b.slots, slots) && s in b.slots
  }

  /** The slots a conflict reports: every slot of every stored row at the
      hall and date that shares a slot with the request. */
  lemma ConflictSlotsSpec(rows: seq<Booking>, hall: string, date: Day, slots: seq<string>)
    requires ConflictRows(rows, hall, date, slots) != []
    ensures var taken := SlotsOf(ConflictRows(rows, hall, date, slots));
      && (forall s :: s in taken <==> ConflictSlot(rows, hall, date, slots, s))
      && (exists s :: s in slots && s in taken)
  {
    var conflicts := ConflictRows(rows, hall, date, slots);
    assert conflicts[0] in conflicts;
    var b := conflicts[0];
    var x :| x in b.slots && x in slots;
    assert x in SlotsOf(conflicts);
  }

  /** What is left of a request once the taken slots are removed: the
      request's own slots, in order, exactly those not taken. */
  lemma RemainingSlots(slots: seq<string>, taken: seq<string>)
    ensures var rest := Filter(slots, NotIn(taken));
      && IsSubsequence(rest, slots)
      && (forall s :: s in slots ==> (s in rest <==> s !in taken))
  {
    FilterIsSubsequence(slots, NotIn(taken));
  }

  /** A refused chat booking: hall, date and slots were resolved, some stored
      row at that hall and date shares a slot with the request, and
      `conflictSlots` is every slot of every such row (not only the shared
      ones), so it meets the request. */
  lemma ConflictReply(rows: seq<Booking>, nextId: nat, userId: nat,
                      hall: string, date: Option<Day>, slots: seq<string>, purpose: string)
    requires BookingDecision(rows, nextId, userId, hall, date, slots, purpose).SlotConflict?
    ensures hall != "" && date.Some? && slots != []
    ensures exists b :: b in rows && IsAt(b, hall, date.value) && Overlaps(b.slots, slots)
    ensures var r := BookingDecision(rows, nextId, userId, hall, date, slots, purpose);
      && (forall s :: s in r.conflictSlots <==> ConflictSlot(rows, hall, date.value, slots, s))
      && (exists s :: s in slots && s in r.conflictSlots)
  {
    ConflictSlotsSpec(rows, hall, date.value, slots);
  }

  /** The alternatives a refused chat booking offers are the requested slots,
      in the order asked, that are not among the conflicting ones. */
  lemma ConflictAlternatives(rows: seq<Booking>, nextId: nat, userId: nat,
                             hall: string, date: Option<Day>, slots: seq<string>, purpose: string)
    requires BookingDecision(rows, nextId, userId, hall, date, slots, purpose).SlotConflict?
    ensures var r := BookingDecision(rows, nextId, userId, hall, date, slots, purpose);
      && IsSubsequence(r.availableSlots, slots)
      && (forall s :: s in slots ==> (s in r.availableSlots <==> s !in r.conflictSlots))
  {
    RemainingSlots(slots, SlotsOf(ConflictRows(rows, hall, date.value, slots)));
  }

  /** A booking is created exactly when hall, date and a non-empty slot list
      are resolved and no stored row at that hall and date shares a slot; the
      new row carries the next id, the requester and the resolved fields. */
  lemma BookedReply(rows: seq<Booking>, nextId: nat, userId: nat,
                    hall: string, date: Option<Day>, slots: seq<string>, purpose: string)
    requires purpose != ""
    ensures var r := BookingDecision(rows, nextId, userId, hall, date, slots, purpose);
      r.Booked? <==>
        hall != "" && date.Some? && slots != []
        && forall b :: b in rows && IsAt(b, hall, date.value) ==> !Overlaps(b.slots, slots)
    ensures var r := BookingDecision(rows, nextId, userId, hall, date, slots, purpose);
      r.Booked? ==>
        r.booking == Booking(nextId, userId, hall, date.value, slots, purpose)
        && ConflictRows(rows, hall, date.value, slots) == []
  {
  }

  /** When hall, date or slots are unresolved nothing is booked, and
      `missingInfo` flags exactly the missing fields. */
  lemma MissingInfoReply(rows: seq<Booking>, nextId: nat, userId: nat,
                         hall: string, date: Option<Day>, slots: seq<string>, purpose: string)
    ensures var r := BookingDecision(rows, nextId, userId, hall, date, slots, purpose);
      (r.NeedMoreInfo? <==> hall == "" || date.None? || slots == [] || purpose == "")
      && (r.NeedMoreInfo? ==>
            r.missingInfo == MissingInfo(hall == "", date.None?, slots == [], purpose == ""))
  {
  }

  /** In the chat handler the purpose always resolves, so the purpose flag of
      `missingInfo` is never raised and a recognised hall is a catalog hall. */
  lemma ChatPurposeNeverMissing(rows: seq<Booking>, nextId: nat, userId: nat, l: string, today: Day)
    ensures var r := BookingOutcome(rows, nextId, userId, l, today);
      (r.NeedMoreInfo? ==> !r.missingInfo.purpose)
      && (r.Booked? ==> r.booking.hall in HALLS && r.booking.purpose in PURPOSE_LABELS)
  {
    HallOfSpec(l);
  }
}
