/** The GET `/api/availability` response as the two booking pages read it,
    and the body the server actually sends. */
module Client {
  import opened Wrappers
  import opened Seqs

  /** The colour a page gives a slot. */
  datatype SlotStatus = Green | Red

  /** `{ slot, status }`. */
  datatype SlotState = SlotState(slot: string, status: SlotStatus)

  /** The parsed JSON: each field the pages read may be absent. */
  datatype AvailabilityData = AvailabilityData(bookedSlots: Option<seq<string>>, availableSlots: Option<seq<SlotState>>)

  /** What the route answers: `res.json({ bookedSlots })` and no other field. */
  function AvailabilityBody(booked: seq<string>): (r: AvailabilityData)
    ensures r.bookedSlots == Some(booked)
    ensures r.availableSlots.None?
  {
    AvailabilityData(Some(booked), None)
  }

  /** `states.filter(s => s.status === 'red').map(s => s.slot)`. */
  function RedSlots(states: seq<SlotState>): (r: seq<string>)
    ensures forall s :: s in r <==> exists st :: st in states && st.status == Red && st.slot == s
  {
    if states == [] then []
    else
      assert forall st :: st in states <==> st == states[0] || st in states[1..];
      (if states[0].status == Red then [states[0].slot] else []) + RedSlots(states[1..])
  }
}
