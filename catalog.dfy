/** The fixed vocabulary of the booking system: the four halls and the
    sixteen half-hour slot labels, split into a morning and an afternoon group.
    The frontend pages declare the same lists. */
module Catalog {
  import opened Seqs

  /** A calendar date, as a day number counted from 1970-01-01. */
  type Day = int

  const HALLS: seq<string> :=
    ["Main Auditorium Hall", "Vedhanayagam Hall", "ECE Seminar Hall", "SF Seminar Hall"]

  const MORNING_SLOTS: seq<string> :=
    ["8:30 - 9:00", "9:00 - 9:30", "9:30 - 10:00", "10:00 - 10:30",
     "10:30 - 11:00", "11:00 - 11:30", "11:30 - 12:00", "12:00 - 12:30"]

  const AFTERNOON_SLOTS: seq<string> :=
    ["1:00 - 1:30", "1:30 - 2:00", "2:00 - 2:30", "2:30 - 3:00",
     "3:00 - 3:30", "3:30 - 4:00", "4:00 - 4:30", "After 4:30"]

  /** The whole catalog in display order; also what a full-day request books. */
  const ALL_SLOTS: seq<string> := MORNING_SLOTS + AFTERNOON_SLOTS

  /** The catalog has sixteen distinct labels, eight in each group, and no
      label belongs to both groups. */
  lemma CatalogShape()
    ensures |MORNING_SLOTS| == 8 && |AFTERNOON_SLOTS| == 8 && |ALL_SLOTS| == 16
    ensures Distinct(ALL_SLOTS) && Distinct(HALLS)
    ensures forall s :: s in MORNING_SLOTS ==> s !in AFTERNOON_SLOTS
    ensures forall s :: s in ALL_SLOTS <==> s in MORNING_SLOTS || s in AFTERNOON_SLOTS
  {
  }
}
