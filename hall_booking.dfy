/** The hall booking page: the slot toggle, the slot colouring, the Book Now
    guard, and the effects of the availability, booking and cancel calls on
    the page's state. Server answers enter as parameters. */
module HallBookingPage {
  import opened Wrappers
  import opened Seqs
  import opened Catalog
  import opened Tables
  import opened Client

  // ----- Reading the availability response

  /** The page's reading as written: the red entries of `availableSlots`,
      or nothing when that field is absent. */
  function BookedAsWritten(d: AvailabilityData): (r: seq<string>)
    ensures d.availableSlots.None? ==> r == []
    ensures forall s :: s in r <==>
              d.availableSlots.Some? && exists st :: st in d.availableSlots.value && st.status == Red && st.slot == s
  {
    match d.availableSlots
    case None => []
    case Some(states) => RedSlots(states)
  }

  /** The server sends no `availableSlots` field, so the reading as written
      finds no booked slot even when a row holds one, and a click on such a
      slot selects it. */
  lemma AsWrittenMissesBookedSlots(rows: seq<Booking>, hall: string, date: Day, slot: string)
    requires exists b :: b in rows && IsAt(b, hall, date) && slot in b.slots
    ensures slot in BookedSlots(rows, hall, date)
    ensures BookedAsWritten(AvailabilityBody(BookedSlots(rows, hall, date))) == []
    ensures Click([], BookedAsWritten(AvailabilityBody(BookedSlots(rows, hall, date))), slot) == [slot]
  {
  }

  /** One booking of ten o'clock at SF Seminar Hall: the page as written
      still offers that slot for selection. */
  lemma AsWrittenExample()
    ensures var rows := [Booking(1, 1, "SF Seminar Hall", 20433, ["10:00 - 10:30"], "Group Discussion")];
      && BookedSlots(rows, "SF Seminar Hall", 20433) == ["10:00 - 10:30"]
      && BookedAsWritten(AvailabilityBody(BookedSlots(rows, "SF Seminar Hall", 20433))) == []
  {
    var rows := [Booking(1, 1, "SF Seminar Hall", 20433, ["10:00 - 10:30"], "Group Discussion")];
    assert RowsAt(rows, "SF Seminar Hall", 20433) == rows;
  }

  /** The reading the page evidently intends: the `bookedSlots` the server
      sends, or nothing when the field is absent. */
  function BookedFromResponse(d: AvailabilityData): (r: seq<string>)
    ensures d.bookedSlots.None? ==> r == []
    ensures forall s :: s in r <==> d.bookedSlots.Some? && s in d.bookedSlots.value
  {
    d.bookedSlots.GetOr([])
  }

  /** Read this way, a slot shows as booked exactly when some row at the hall
      and date holds it, and a click on it changes nothing. */
  lemma ReadsServerBookedSlots(rows: seq<Booking>, hall: string, date: Day, sel: seq<string>, slot: string)
    ensures var booked := BookedFromResponse(AvailabilityBody(BookedSlots(rows, hall, date)));
      && (forall s :: s in booked <==> exists b :: b in rows && IsAt(b, hall, date) && s in b.slots)
      && ((exists b :: b in rows && IsAt(b, hall, date) && slot in b.slots) ==> Click(sel, booked, slot) == sel)
  {
  }

  // ----- Selecting slots

  function Other(slot: string): string -> bool
  {
    s => s != slot
  }

  /** `prev.includes(slot) ? prev.filter(s => s !== slot) : [...prev, slot]`:
      the slot flips between selected and not, every other slot stays; an
      added slot goes last, a removal keeps the rest in order. */
  function Toggle(sel: seq<string>, slot: string): (r: seq<string>)
    ensures slot in r <==> slot !in sel
    ensures forall x :: x != slot ==> (x in r <==> x in sel)
    ensures slot !in sel ==> r == sel + [slot]
    ensures slot in sel ==> IsSubsequence(r, sel)
  {
    if slot in sel then
      FilterIsSubsequence(sel, Other(slot));
      Filter(sel, Other(slot))
    else sel + [slot]
  }

  /** `handleSlotClick`: a booked slot is ignored, any other is toggled. */
  function Click(sel: seq<string>, booked: seq<string>, slot: string): (r: seq<string>)
    ensures slot in booked ==> r == sel
    ensures slot !in booked ==> (slot in r <==> slot !in sel)
    ensures forall x :: x != slot ==> (x in r <==> x in sel)
  {
    if slot in booked then sel else Toggle(sel, slot)
  }

  /** The selection after a series of clicks. */
  function Clicks(sel: seq<string>, booked: seq<string>, clicks: seq<string>): seq<string>
    decreases |clicks|
  {
    if clicks == [] then sel else Clicks(Click(sel, booked, clicks[0]), booked, clicks[1..])
  }

  /** The page invariant on a selection: no slot twice, and no booked slot. */
  predicate SelectionOk(sel: seq<string>, booked: seq<string>)
  {
    Distinct(sel) && forall s :: s in sel ==> s !in booked
  }

  /** A click keeps the selection free of repeats and of booked slots. */
  lemma ClickKeepsSelectionOk(sel: seq<string>, booked: seq<string>, slot: string)
    requires SelectionOk(sel, booked)
    ensures SelectionOk(Click(sel, booked, slot), booked)
  {
    if slot !in booked {
      if slot in sel {
        FilterKeepsDistinct(sel, Other(slot));
      } else {
        var r := sel + [slot];
        forall i, j | 0 <= i < j < |r| ensures r[i] != r[j] {
          if j == |sel| {
            assert r[i] == sel[i];
          } else {
            assert r[i] == sel[i] && r[j] == sel[j];
          }
        }
      }
    }
  }

  /** However the user clicks, the selection never holds a booked slot or a
      repeated one. */
  lemma {:induction false} ClicksKeepSelectionOk(sel: seq<string>, booked: seq<string>, clicks: seq<string>)
    requires SelectionOk(sel, booked)
    ensures SelectionOk(Clicks(sel, booked, clicks), booked)
    decreases |clicks|
  {
    if clicks != [] {
      ClickKeepsSelectionOk(sel, booked, clicks[0]);
      ClicksKeepSelectionOk(Click(sel, booked, clicks[0]), booked, clicks[1..]);
    }
  }

  /** Clicking a slot twice restores the selected set; it restores the list
      itself when the slot was not selected before. */
  lemma ClickTwice(sel: seq<string>, booked: seq<string>, slot: string)
    ensures forall x :: x in Click(Click(sel, booked, slot), booked, slot) <==> x in sel
    ensures slot !in sel ==> Click(Click(sel, booked, slot), booked, slot) == sel
  {
    if slot !in sel && slot !in booked {
      FilterConcat(sel, [slot], Other(slot));
      FilterKeepsAll(sel, Other(slot));
      FilterDropsAll([slot], Other(slot));
    }
  }

  // ----- What the page shows

  /** The three looks of a slot badge. */
  datatype SlotLook = LookBooked | LookSelected | LookAvailable

  /** The CSS classes `getSlotClass` returns for each look. */
  function LookClass(k: SlotLook): string
  {
    match k
    case LookBooked => "slot-booked cursor-not-allowed opacity-70"
    case LookSelected => "slot-selected"
    case LookAvailable => "slot-available hover:scale-105 cursor-pointer"
  }

  /** `getSlotClass`: booked wins over selected, selected over available. */
  function Look(sel: seq<string>, booked: seq<string>, slot: string): (r: SlotLook)
    ensures r == LookBooked <==> slot in booked
    ensures r == LookSelected <==> slot !in booked && slot in sel
    ensures r == LookAvailable <==> slot !in booked && slot !in sel
  {
    if slot in booked then LookBooked else if slot in sel then LookSelected else LookAvailable
  }

  /** Under the page invariant each slot has the look of exactly its state:
      booked slots look booked, selected slots look selected, the rest look
      available, and the three class strings differ. */
  lemma LookMatchesState(sel: seq<string>, booked: seq<string>, slot: string)
    requires SelectionOk(sel, booked)
    ensures Look(sel, booked, slot) == LookBooked <==> slot in booked
    ensures Look(sel, booked, slot) == LookSelected <==> slot in sel
    ensures Look(sel, booked, slot) == LookAvailable <==> slot !in booked && slot !in sel
    ensures forall j, k :: j != k ==> LookClass(j) != LookClass(k)
  {
  }

  /** The body of `apiService.createBooking`. */
  datatype BookingRequest = BookingRequest(hall: string, date: string, slots: seq<string>, purpose: string)

  class BookingPage {
    var selectedHall: string
    var selectedDate: string
    var purpose: string
    var selectedSlots: seq<string>
    var bookedSlots: seq<string>
    var bookings: seq<Booking>
    var isLoading: bool

    ghost predicate Valid()
      reads this
    {
      SelectionOk(selectedSlots, bookedSlots)
    }

    constructor ()
      ensures Valid()
      ensures selectedHall == "" && selectedDate == "" && purpose == ""
      ensures selectedSlots == [] && bookedSlots == [] && bookings == [] && !isLoading
    {
      selectedHall := "";
      selectedDate := "";
      purpose := "";
      selectedSlots := [];
      bookedSlots := [];
      bookings := [];
      isLoading := false;
    }

    /** The guard of `handleBookNow`. */
    predicate CanBook()
      reads this
    {
      selectedHall != "" && selectedDate != "" && purpose != "" && |selectedSlots| > 0
    }

    /** The Book Now button is disabled exactly when the guard fails or a
        request is in flight, so an enabled button always passes the guard. */
    function ButtonDisabled(): (r: bool)
      reads this
      ensures !r ==> CanBook() && !isLoading
      ensures r <==> selectedHall == "" || selectedDate == "" || purpose == "" || selectedSlots == [] || isLoading
    {
      !CanBook() || isLoading
    }

    /** `getSlotClass` on the page's state. */
    function SlotClass(slot: string): (c: string)
      reads this
      ensures Valid() ==> (c == LookClass(LookSelected) <==> slot in selectedSlots)
      ensures c == LookClass(LookBooked) <==> slot in bookedSlots
    {
      LookClass(Look(selectedSlots, bookedSlots, slot))
    }

    /** `fetchAvailability`; `resp` is the parsed response, `None` when the
        call fails. Success replaces the booked slots and clears the
        selection; failure clears the booked slots only. */
    method FetchAvailability(resp: Option<AvailabilityData>)
      requires Valid()
      modifies this
      ensures Valid()
      ensures resp.Some? ==> bookedSlots == BookedFromResponse(resp.value) && selectedSlots == []
      ensures resp.None? ==> bookedSlots == [] && selectedSlots == old(selectedSlots)
      ensures selectedHall == old(selectedHall) && selectedDate == old(selectedDate) && purpose == old(purpose)
      ensures bookings == old(bookings) && isLoading == old(isLoading)
    {
      match resp {
        case Some(d) =>
          bookedSlots := BookedFromResponse(d);
          selectedSlots := [];
        case None =>
          bookedSlots := [];
      }
    }

    /** Choosing a hall. The effect on `[selectedHall, selectedDate]` runs
        only when the hall actually changes, and fetches availability only
        once hall and date are both set. */
    method SetHall(hall: string, resp: Option<AvailabilityData>)
      requires Valid()
      modifies this
      ensures Valid()
      ensures selectedHall == hall && selectedDate == old(selectedDate) && purpose == old(purpose)
      ensures hall == old(selectedHall) || hall == "" || selectedDate == "" ==>
                selectedSlots == old(selectedSlots) && bookedSlots == old(bookedSlots)
      ensures hall != old(selectedHall) && hall != "" && selectedDate != "" ==>
                && bookedSlots == (if resp.Some? then BookedFromResponse(resp.value) else [])
                && selectedSlots == (if resp.Some? then [] else old(selectedSlots))
      ensures bookings == old(bookings) && isLoading == old(isLoading)
    {
      var changed := hall != selectedHall;
      selectedHall := hall;
      if changed && selectedHall != "" && selectedDate != "" {
        FetchAvailability(resp);
      }
    }

    /** Choosing a date; the same effect as for the hall, run only when the
        date actually changes. */
    method SetDate(date: string, resp: Option<AvailabilityData>)
      requires Valid()
      modifies this
      ensures Valid()
      ensures selectedDate == date && selectedHall == old(selectedHall) && purpose == old(purpose)
      ensures date == old(selectedDate) || selectedHall == "" || date == "" ==>
                selectedSlots == old(selectedSlots) && bookedSlots == old(bookedSlots)
      ensures date != old(selectedDate) && selectedHall != "" && date != "" ==>
                && bookedSlots == (if resp.Some? then BookedFromResponse(resp.value) else [])
                && selectedSlots == (if resp.Some? then [] else old(selectedSlots))
      ensures bookings == old(bookings) && isLoading == old(isLoading)
    {
      var changed := date != selectedDate;
      selectedDate := date;
      if changed && selectedHall != "" && selectedDate != "" {
        FetchAvailability(resp);
      }
    }

    /** `handleSlotClick`. */
    method ClickSlot(slot: string)
      requires Valid()
      modifies this
      ensures Valid()
      ensures selectedSlots == Click(old(selectedSlots), bookedSlots, slot)
      ensures slot in bookedSlots ==> selectedSlots == old(selectedSlots)
      ensures bookedSlots == old(bookedSlots) && selectedHall == old(selectedHall) && selectedDate == old(selectedDate)
      ensures purpose == old(purpose) && bookings == old(bookings) && isLoading == old(isLoading)
    {
      ClickKeepsSelectionOk(selectedSlots, bookedSlots, slot);
      if slot in bookedSlots {
        return;
      }
      selectedSlots := Toggle(selectedSlots, slot);
    }

    /** `fetchBookings`: a failed call leaves the list as it was. */
    method FetchBookings(resp: Option<seq<Booking>>)
      modifies this
      ensures bookings == (if resp.Some? then resp.value else old(bookings))
      ensures selectedHall == old(selectedHall) && selectedDate == old(selectedDate) && purpose == old(purpose)
      ensures selectedSlots == old(selectedSlots) && bookedSlots == old(bookedSlots) && isLoading == old(isLoading)
    {
      if resp.Some? {
        bookings := resp.value;
      }
    }

    /** `handleBookNow`. With the guard failing nothing is sent and nothing
        changes. Otherwise the request carries the form; `created` says
        whether the server accepted it, after which the bookings and the
        availability are refetched (`bookingsResp`, `availResp`) and the
        selection and purpose are cleared. */
    method BookNow(created: bool, bookingsResp: Option<seq<Booking>>, availResp: Option<AvailabilityData>)
      returns (request: Option<BookingRequest>)
      requires Valid()
      modifies this
      ensures Valid()
      ensures !old(CanBook()) ==>
                request.None? && selectedSlots == old(selectedSlots) && purpose == old(purpose)
                && bookedSlots == old(bookedSlots) && bookings == old(bookings) && isLoading == old(isLoading)
      ensures old(CanBook()) ==>
                request == Some(BookingRequest(old(selectedHall), old(selectedDate), old(selectedSlots), old(purpose)))
                && !isLoading
      ensures old(CanBook()) && created ==>
                selectedSlots == [] && purpose == ""
                && bookings == (if bookingsResp.Some? then bookingsResp.value else old(bookings))
                && bookedSlots == (if availResp.Some? then BookedFromResponse(availResp.value) else [])
      ensures old(CanBook()) && !created ==>
                selectedSlots == old(selectedSlots) && purpose == old(purpose)
                && bookedSlots == old(bookedSlots) && bookings == old(bookings)
      ensures selectedHall == old(selectedHall) && selectedDate == old(selectedDate)
    {
      if !CanBook() {
        return None;
      }
      isLoading := true;
      request := Some(BookingRequest(selectedHall, selectedDate, selectedSlots, purpose));
      if created {
        FetchBookings(bookingsResp);
        FetchAvailability(availResp);
        selectedSlots := [];
        purpose := "";
      }
      isLoading := false;
    }

    /** `handleCancelBooking`: on success the row leaves the list and, with
        hall and date chosen, availability is refetched (which also clears
        the selection); on failure nothing changes. */
    method CancelBooking(id: nat, deleted: bool, availResp: Option<AvailabilityData>)
      requires Valid()
      modifies this
      ensures Valid()
      ensures deleted ==> bookings == Filter(old(bookings), (b: Booking) => b.id != id)
      ensures deleted && selectedHall != "" && selectedDate != "" ==>
                && bookedSlots == (if availResp.Some? then BookedFromResponse(availResp.value) else [])
                && selectedSlots == (if availResp.Some? then [] else old(selectedSlots))
      ensures !deleted || selectedHall == "" || selectedDate == "" ==>
                selectedSlots == old(selectedSlots) && bookedSlots == old(bookedSlots)
      ensures !deleted ==> bookings == old(bookings)
      ensures selectedHall == old(selectedHall) && selectedDate == old(selectedDate)
      ensures purpose == old(purpose) && isLoading == old(isLoading)
    {
      if !deleted {
        return;
      }
      bookings := Filter(bookings, (b: Booking) => b.id != id);
      if selectedHall != "" && selectedDate != "" {
        FetchAvailability(availResp);
      }
    }
  }
}
