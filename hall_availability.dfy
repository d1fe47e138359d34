/** The hall availability page: for a chosen date, one row of sixteen slot
    colours per hall, fetched hall by hall, with a failed fetch shown as all
    free. */
module HallAvailabilityPage {
  import opened Wrappers
  import opened Seqs
  import opened Catalog
  import opened Tables
  import opened Client

  /** `{ hall, availableSlots }`: one hall's row of slot colours. */
  datatype HallSlots = HallSlots(hall: string, availableSlots: seq<SlotState>)

  /** `slots.map(s => ({ slot: s, status: booked.includes(s) ? 'red' : 'green' }))`:
      the catalog in order, red exactly where booked. */
  function SlotStatuses(booked: seq<string>): (r: seq<SlotState>)
    ensures |r| == |ALL_SLOTS|
    ensures forall i :: 0 <= i < |r| ==> r[i].slot == ALL_SLOTS[i]
    ensures forall i :: 0 <= i < |r| ==> (r[i].status == Red <==> ALL_SLOTS[i] in booked)
  {
    seq(|ALL_SLOTS|, i requires 0 <= i < |ALL_SLOTS| =>
      SlotState(ALL_SLOTS[i], if ALL_SLOTS[i] in booked then Red else Green))
  }

  /** One hall's record: from `data.bookedSlots || []` on success, all green
      when the call fails (`resp` is `None`). */
  function HallRecord(hall: string, resp: Option<AvailabilityData>): (r: HallSlots)
    ensures r.hall == hall && |r.availableSlots| == |ALL_SLOTS|
    ensures forall i :: 0 <= i < |ALL_SLOTS| ==> r.availableSlots[i].slot == ALL_SLOTS[i]
    ensures forall i :: 0 <= i < |ALL_SLOTS| ==>
      (r.availableSlots[i].status == Red <==> resp.Some? && ALL_SLOTS[i] in resp.value.bookedSlots.GetOr([]))
  {
    match resp
    case Some(d) => HallSlots(hall, SlotStatuses(d.bookedSlots.GetOr([])))
    case None => HallSlots(hall, SlotStatuses([]))
  }

  /** `availability.find(h => h.hall === hall)`. */
  function FindHall(recs: seq<HallSlots>, hall: string): (r: Option<HallSlots>)
    ensures r.Some? ==> r.value in recs && r.value.hall == hall
    ensures r.None? <==> forall h :: h in recs ==> h.hall != hall
  {
    if recs == [] then None
    else if recs[0].hall == hall then Some(recs[0])
    else
      assert forall h :: h in recs <==> h == recs[0] || h in recs[1..];
      FindHall(recs[1..], hall)
  }

  /** `availableSlots.find(s => s.slot === slot)`. */
  function FindSlot(states: seq<SlotState>, slot: string): (r: Option<SlotState>)
    ensures r.Some? ==> r.value in states && r.value.slot == slot
    ensures r.None? <==> forall st :: st in states ==> st.slot != slot
  {
    if states == [] then None
    else if states[0].slot == slot then Some(states[0])
    else
      assert forall st :: st in states <==> st == states[0] || st in states[1..];
      FindSlot(states[1..], slot)
  }

  /** `getSlotStatus` on a list of records: the status of the first match,
      green when the hall or the slot is not found. */
  function StatusIn(recs: seq<HallSlots>, hall: string, slot: string): (r: SlotStatus)
    ensures r == Red ==> exists h, st :: h in recs && h.hall == hall
                                    && st in h.availableSlots && st.slot == slot && st.status == Red
    ensures (forall h :: h in recs ==> h.hall != hall) ==> r == Green
  {
    match FindHall(recs, hall)
    case None => Green
    case Some(h) =>
      match FindSlot(h.availableSlots, slot)
      case None => Green
      case Some(st) => st.status
  }

  /** In a row built from booked slots, a slot reads red exactly when it is a
      catalog slot that is booked. */
  lemma {:induction false} FindInStatuses(booked: seq<string>, slot: string)
    ensures var f := FindSlot(SlotStatuses(booked), slot);
      (f.Some? <==> slot in ALL_SLOTS) && (f.Some? ==> (f.value.status == Red <==> slot in booked))
  {
    var r := SlotStatuses(booked);
    var f := FindSlot(r, slot);
    if f.Some? {
      var k :| 0 <= k < |r| && r[k] == f.value;
      assert ALL_SLOTS[k] == slot;
    } else {
      forall i | 0 <= i < |ALL_SLOTS| ensures ALL_SLOTS[i] != slot {
        assert r[i] in r;
      }
    }
  }

  /** The records of the four halls, in catalog order, as `halls.map` builds them. */
  ghost predicate RecordsFor(recs: seq<HallSlots>, fetch: string -> Option<AvailabilityData>)
  {
    |recs| == |HALLS| && forall i :: 0 <= i < |HALLS| ==> recs[i] == HallRecord(HALLS[i], fetch(HALLS[i]))
  }

  /** After a fetch every catalog hall shows red exactly on the catalog slots
      its fetched `bookedSlots` holds; a hall whose fetch failed, and any
      unknown hall or slot, shows green. */
  lemma StatusAfterFetch(recs: seq<HallSlots>, fetch: string -> Option<AvailabilityData>, hall: string, slot: string)
    requires RecordsFor(recs, fetch)
    ensures StatusIn(recs, hall, slot) == Red <==>
              hall in HALLS && fetch(hall).Some? && slot in ALL_SLOTS && slot in fetch(hall).value.bookedSlots.GetOr([])
  {
    CatalogShape();
    var f := FindHall(recs, hall);
    if f.Some? {
      var k :| 0 <= k < |recs| && recs[k] == f.value;
      assert HALLS[k] == hall;
      match fetch(hall) {
        case Some(d) => FindInStatuses(d.bookedSlots.GetOr([]), slot);
        case None => FindInStatuses([], slot);
      }
    } else {
      forall i | 0 <= i < |HALLS| ensures HALLS[i] != hall {
        assert recs[i] in recs;
      }
    }
  }

  class AvailabilityPage {
    var selectedDate: string
    var availability: seq<HallSlots>
    var isLoading: bool

    constructor ()
      ensures selectedDate == "" && availability == [] && !isLoading
    {
      selectedDate := "";
      availability := [];
      isLoading := false;
    }

    /** `fetchAllAvailability` for the current date. `fetch(hall)` is the
        parsed answer of the call for that hall, `None` when it fails. */
    method FetchAllAvailability(fetch: string -> Option<AvailabilityData>)
      modifies this
      ensures RecordsFor(availability, fetch)
      ensures selectedDate == old(selectedDate) && !isLoading
    {
      isLoading := true;
      var results: seq<HallSlots> := [];
      var i := 0;
      while i < |HALLS|
        invariant 0 <= i <= |HALLS|
        invariant |results| == i
        invariant forall j :: 0 <= j < i ==> results[j] == HallRecord(HALLS[j], fetch(HALLS[j]))
      {
        var hall := HALLS[i];
        var resp := fetch(hall);
        var record: HallSlots;
        if resp.Some? {
          var booked := resp.value.bookedSlots.GetOr([]);
          record := HallSlots(hall, SlotStatuses(booked));
        } else {
          record := HallSlots(hall, SlotStatuses([]));
        }
        results := results + [record];
        i := i + 1;
      }
      availability := results;
      isLoading := false;
    }

    /** `setSelectedDate` and the effect on `[selectedDate]`: the effect runs
        only when the date actually changes, and fetches only a non-empty
        date; otherwise the old records stay. */
    method SetDate(date: string, fetch: string -> Option<AvailabilityData>)
      modifies this
      ensures selectedDate == date
      ensures date == old(selectedDate) || date == "" ==>
                availability == old(availability) && isLoading == old(isLoading)
      ensures date != old(selectedDate) && date != "" ==> RecordsFor(availability, fetch) && !isLoading
    {
      var changed := date != selectedDate;
      selectedDate := date;
      if changed && selectedDate != "" {
        FetchAllAvailability(fetch);
      }
    }

    /** `getSlotStatus`. */
    function GetSlotStatus(hall: string, slot: string): (r: SlotStatus)
      reads this
      ensures r == Red ==> exists h, st :: h in availability && h.hall == hall
                                      && st in h.availableSlots && st.slot == slot && st.status == Red
      ensures (forall h :: h in availability ==> h.hall != hall) ==> r == Green
    {
      StatusIn(availability, hall, slot)
    }
  }
}
