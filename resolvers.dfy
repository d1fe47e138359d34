/** The free-text resolvers of the chat assistant. Each one is a chain of
    substring tests, first match wins, over the lower-cased text. */
module Resolvers {
  import opened Wrappers
  import opened Text
  import opened Catalog

  /** The one literal date the resolver knows, 2025-12-11. */
  const DECEMBER_11_2025: Day := 20433

  /** `getDay()`: 0 is Sunday, 1 is Monday; 1970-01-01 was a Thursday. */
  function Weekday(d: Day): (w: nat)
    ensures w < 7
  {
    (d + 4) % 7
  }

  /** `(1 - today.getDay() + 7) % 7 || 7`: the distance to the nearest
      Monday strictly after today, a full week when today is a Monday. The
      operand of `%` is positive, so JavaScript's and Dafny's `%` agree here. */
  function DaysUntilNextMonday(today: Day): (n: int)
    ensures 1 <= n <= 7
    ensures n == 7 <==> Weekday(today) == 1
  {
    var d := (1 - Weekday(today) + 7) % 7;
    if d == 0 then 7 else d
  }

  lemma WeekdayShift(d: Day, k: nat)
    ensures Weekday(d + k) == (Weekday(d) + k) % 7
  {
  }

  /** The offset lands on a Monday, and no day before it (after today) is one. */
  lemma DaysUntilNextMondayIsNearest(today: Day)
    ensures Weekday(today + DaysUntilNextMonday(today)) == 1
    ensures forall d :: today < d < today + DaysUntilNextMonday(today) ==> Weekday(d) != 1
  {
    var n := DaysUntilNextMonday(today);
    WeekdayShift(today, n);
    forall d | today < d < today + n
      ensures Weekday(d) != 1
    {
      WeekdayShift(today, d - today);
    }
  }

  predicate MentionsLiteralDate(lower: string)
  {
    Contains(lower, "december 11") || Contains(lower, "dec 11")
    || Contains(lower, "12/11") || Contains(lower, "12-11")
  }

  /** `parseDate`: "next monday", then "tomorrow", then the literal date,
      then "today"; `None` (JavaScript `null`) when nothing matches. */
  function ParseDate(text: string, today: Day): (r: Option<Day>)
    ensures r == None <==>
      var lower := ToLower(text);
      !Contains(lower, "next monday") && !Contains(lower, "tomorrow")
      && !MentionsLiteralDate(lower) && !Contains(lower, "today")
    ensures r.Some? ==> today <= r.value <= today + 7 || r.value == DECEMBER_11_2025
  {
    var lower := ToLower(text);
    if Contains(lower, "next monday") then Some(today + DaysUntilNextMonday(today))
    else if Contains(lower, "tomorrow") then Some(today + 1)
    else if MentionsLiteralDate(lower) then Some(DECEMBER_11_2025)
    else if Contains(lower, "today") then Some(today)
    else None
  }

  /** "next monday" wins over every other date phrase and resolves to the
      nearest Monday strictly after today (today + 7 on a Monday). */
  lemma NextMondayResolution(text: string, today: Day)
    requires Contains(ToLower(text), "next monday")
    ensures ParseDate(text, today).Some?
    ensures var d := ParseDate(text, today).value;
      today < d <= today + 7 && Weekday(d) == 1
      && (forall k :: today < k < d ==> Weekday(k) != 1)
      && (Weekday(today) == 1 ==> d == today + 7)
  {
    DaysUntilNextMondayIsNearest(today);
  }

  /** Without "next monday", "tomorrow" resolves to today + 1 whatever else
      the text says. */
  lemma TomorrowResolution(text: string, today: Day)
    requires !Contains(ToLower(text), "next monday") && Contains(ToLower(text), "tomorrow")
    ensures ParseDate(text, today) == Some(today + 1)
  {
  }

  /** Without "next monday" or "tomorrow", a literal date resolves to
      2025-12-11, even when the text also says "today". */
  lemma LiteralDateResolution(text: string, today: Day)
    requires !Contains(ToLower(text), "next monday") && !Contains(ToLower(text), "tomorrow")
    requires MentionsLiteralDate(ToLower(text))
    ensures ParseDate(text, today) == Some(DECEMBER_11_2025)
  {
  }

  /** "today" resolves to today only when no earlier date phrase occurs. */
  lemma TodayResolution(text: string, today: Day)
    requires !Contains(ToLower(text), "next monday") && !Contains(ToLower(text), "tomorrow")
    requires !MentionsLiteralDate(ToLower(text)) && Contains(ToLower(text), "today")
    ensures ParseDate(text, today) == Some(today)
  {
  }

  const TEN_OCLOCK_SLOTS: seq<string> := ["10:00 - 10:30", "10:30 - 11:00"]
  const HALF_PAST_ELEVEN_SLOTS: seq<string> := ["11:30 - 12:00"]

  predicate MentionsFullDay(lower: string)
  {
    Contains(lower, "full slots") || Contains(lower, "all day") || Contains(lower, "full day")
  }

  predicate MentionsMorning(lower: string)
  {
    Contains(lower, "morning slots") || Contains(lower, "morning")
  }

  predicate MentionsAfternoon(lower: string)
  {
    Contains(lower, "afternoon slots") || Contains(lower, "afternoon")
  }

  predicate MentionsTenOClock(lower: string)
  {
    Contains(lower, "10.00") || Contains(lower, "10:00") || Contains(lower, "10 am")
    || Contains(lower, "10:00am")
  }

  predicate MentionsHalfPastEleven(lower: string)
  {
    Contains(lower, "11.30") || Contains(lower, "11:30") || Contains(lower, "11:30am")
  }

  /** `parseTime`: the full day, then the morning group, then the afternoon
      group, then the two literal times; `[]` when nothing matches. */
  function ParseTime(text: string): (r: seq<string>)
    ensures r in [ALL_SLOTS, MORNING_SLOTS, AFTERNOON_SLOTS, TEN_OCLOCK_SLOTS, HALF_PAST_ELEVEN_SLOTS, []]
    ensures r == [] <==>
      var lower := ToLower(text);
      !MentionsFullDay(lower) && !MentionsMorning(lower) && !MentionsAfternoon(lower)
      && !MentionsTenOClock(lower) && !MentionsHalfPastEleven(lower)
  {
    var lower := ToLower(text);
    if MentionsFullDay(lower) then ALL_SLOTS
    else if MentionsMorning(lower) then MORNING_SLOTS
    else if MentionsAfternoon(lower) then AFTERNOON_SLOTS
    else if MentionsTenOClock(lower) then TEN_OCLOCK_SLOTS
    else if MentionsHalfPastEleven(lower) then HALF_PAST_ELEVEN_SLOTS
    else []
  }

  /** Every slot list `parseTime` produces is a contiguous run of the catalog,
      so it holds catalog labels only, in catalog order, without repeats. */
  lemma ParseTimeIsCatalogRun(text: string)
    ensures exists lo, hi :: 0 <= lo <= hi <= |ALL_SLOTS| && ParseTime(text) == ALL_SLOTS[lo..hi]
  {
    var r := ParseTime(text);
    if r == ALL_SLOTS {
      assert r == ALL_SLOTS[0..16];
    } else if r == MORNING_SLOTS {
      assert r == ALL_SLOTS[0..8];
    } else if r == AFTERNOON_SLOTS {
      assert r == ALL_SLOTS[8..16];
    } else if r == TEN_OCLOCK_SLOTS {
      assert r == ALL_SLOTS[3..5];
    } else if r == HALF_PAST_ELEVEN_SLOTS {
      assert r == ALL_SLOTS[6..7];
    } else {
      assert r == ALL_SLOTS[0..0];
    }
  }

  /** A full-day phrase wins even when "morning" or "afternoon" also appears. */
  lemma FullDayWins(text: string)
    requires MentionsFullDay(ToLower(text))
    ensures ParseTime(text) == ALL_SLOTS
  {
  }

  /** Without a full-day phrase, "morning" gives the eight morning slots. */
  lemma MorningResolution(text: string)
    requires !MentionsFullDay(ToLower(text)) && MentionsMorning(ToLower(text))
    ensures ParseTime(text) == MORNING_SLOTS
  {
  }

  /** Without a full-day or morning phrase, "afternoon" gives the eight
      afternoon slots. */
  lemma AfternoonResolution(text: string)
    requires !MentionsFullDay(ToLower(text)) && !MentionsMorning(ToLower(text))
    requires MentionsAfternoon(ToLower(text))
    ensures ParseTime(text) == AFTERNOON_SLOTS
  {
  }

  /** With no group phrase, ten o'clock gives its two half-hour slots. */
  lemma TenOClockResolution(text: string)
    requires !MentionsFullDay(ToLower(text)) && !MentionsMorning(ToLower(text))
    requires !MentionsAfternoon(ToLower(text)) && MentionsTenOClock(ToLower(text))
    ensures ParseTime(text) == TEN_OCLOCK_SLOTS
  {
  }

  /** With no group phrase and no ten o'clock, half past eleven gives its slot. */
  lemma HalfPastElevenResolution(text: string)
    requires !MentionsFullDay(ToLower(text)) && !MentionsMorning(ToLower(text))
    requires !MentionsAfternoon(ToLower(text)) && !MentionsTenOClock(ToLower(text))
    requires MentionsHalfPastEleven(ToLower(text))
    ensures ParseTime(text) == HALF_PAST_ELEVEN_SLOTS
  {
  }

  const PURPOSE_LABELS: seq<string> :=
    ["training", "meeting", "seminar", "event", "inauguration",
     "Group Discussion", "Lunch Meeting", "Workshop", "General Purpose"]

  /** `extractPurpose`: the first keyword of a fixed list, else "General Purpose". */
  function ExtractPurpose(text: string): (r: string)
    ensures r in PURPOSE_LABELS && r != ""
    ensures r == "General Purpose" <==>
      var lower := ToLower(text);
      !Contains(lower, "training") && !Contains(lower, "meeting") && !Contains(lower, "seminar")
      && !Contains(lower, "event") && !Contains(lower, "inauguration") && !Contains(lower, "gd")
      && !Contains(lower, "lunch") && !Contains(lower, "workshop")
  {
    var lower := ToLower(text);
    if Contains(lower, "training") then "training"
    else if Contains(lower, "meeting") then "meeting"
    else if Contains(lower, "seminar") then "seminar"
    else if Contains(lower, "event") then "event"
    else if Contains(lower, "inauguration") then "inauguration"
    else if Contains(lower, "gd") then "Group Discussion"
    else if Contains(lower, "lunch") then "Lunch Meeting"
    else if Contains(lower, "workshop") then "Workshop"
    else "General Purpose"
  }

  /** The keywords `extractPurpose` tests, in order; keyword `k` yields
      `PURPOSE_LABELS[k]`. */
  const PURPOSE_KEYWORDS: seq<string> :=
    ["training", "meeting", "seminar", "event", "inauguration", "gd", "lunch", "workshop"]

  /** The first keyword, in the fixed order, that the text contains decides
      the purpose. */
  lemma PurposeIsFirstKeyword(text: string, k: nat)
    requires k < |PURPOSE_KEYWORDS| && Contains(ToLower(text), PURPOSE_KEYWORDS[k])
    requires forall j :: 0 <= j < k ==> !Contains(ToLower(text), PURPOSE_KEYWORDS[j])
    ensures ExtractPurpose(text) == PURPOSE_LABELS[k]
  {
    var lower := ToLower(text);
    var kw := PURPOSE_KEYWORDS;
    assert kw[0] == "training" && kw[1] == "meeting" && kw[2] == "seminar" && kw[3] == "event";
    assert kw[4] == "inauguration" && kw[5] == "gd" && kw[6] == "lunch" && kw[7] == "workshop";
    if k >= 1 { assert !Contains(lower, kw[0]); }
    if k >= 2 { assert !Contains(lower, kw[1]); }
    if k >= 3 { assert !Contains(lower, kw[2]); }
    if k >= 4 { assert !Contains(lower, kw[3]); }
    if k >= 5 { assert !Contains(lower, kw[4]); }
    if k >= 6 { assert !Contains(lower, kw[5]); }
    if k >= 7 { assert !Contains(lower, kw[6]); }
  }

  /** Naming either seminar hall already says "seminar", which is tested
      before "gd": "Book SF Seminar Hall ... for GD" resolves to "seminar". */
  lemma SeminarHallBeatsGd(text: string)
    requires Contains(ToLower(text), "sf seminar") || Contains(ToLower(text), "ece seminar")
    requires !Contains(ToLower(text), "training") && !Contains(ToLower(text), "meeting")
    ensures ExtractPurpose(text) == "seminar"
  {
    var lower := ToLower(text);
    if Contains(lower, "sf seminar") {
      assert OccursAt("sf seminar", "seminar", 3);
      ContainsTransitive(lower, "sf seminar", "seminar");
    } else {
      assert OccursAt("ece seminar", "seminar", 4);
      ContainsTransitive(lower, "ece seminar", "seminar");
    }
  }

  /** The partial hall names tried when no full name matched. */
  function AliasHall(lower: string): (r: string)
    ensures r == "" || r in HALLS
  {
    if Contains(lower, "main auditorium") || Contains(lower, "main hall") then "Main Auditorium Hall"
    else if Contains(lower, "vedhanayagam") then "Vedhanayagam Hall"
    else if Contains(lower, "ece seminar") then "ECE Seminar Hall"
    else if Contains(lower, "sf seminar") then "SF Seminar Hall"
    else ""
  }

  /** The partial names in their fixed order: each yields its hall only when
      no earlier partial name occurs. */
  lemma AliasHallOrder(lower: string)
    ensures Contains(lower, "main auditorium") || Contains(lower, "main hall")
            ==> AliasHall(lower) == "Main Auditorium Hall"
    ensures (!Contains(lower, "main auditorium") && !Contains(lower, "main hall")
             && Contains(lower, "vedhanayagam"))
            ==> AliasHall(lower) == "Vedhanayagam Hall"
    ensures (!Contains(lower, "main auditorium") && !Contains(lower, "main hall")
             && !Contains(lower, "vedhanayagam") && Contains(lower, "ece seminar"))
            ==> AliasHall(lower) == "ECE Seminar Hall"
    ensures (!Contains(lower, "main auditorium") && !Contains(lower, "main hall")
             && !Contains(lower, "vedhanayagam") && !Contains(lower, "ece seminar")
             && Contains(lower, "sf seminar"))
            ==> AliasHall(lower) == "SF Seminar Hall"
    ensures (!Contains(lower, "main auditorium") && !Contains(lower, "main hall")
             && !Contains(lower, "vedhanayagam") && !Contains(lower, "ece seminar")
             && !Contains(lower, "sf seminar"))
            ==> AliasHall(lower) == ""
  {
  }

  /** The first hall, from index `k` on, whose lower-cased full name occurs. */
  function FullNameHall(lower: string, k: nat): (r: string)
    requires k <= |HALLS|
    ensures r == "" || r in HALLS[k..]
    decreases |HALLS| - k
  {
    if k == |HALLS| then ""
    else if Contains(lower, ToLower(HALLS[k])) then HALLS[k]
    else FullNameHall(lower, k + 1)
  }

  /** Hall extraction: full names in catalog order, then the partial names. */
  function HallOf(lower: string): (r: string)
    ensures r == "" || r in HALLS
  {
    var full := FullNameHall(lower, 0);
    if full != "" then full else AliasHall(lower)
  }

  lemma {:induction false} FullNameHallFirst(lower: string, k: nat, m: nat)
    requires k <= m < |HALLS|
    requires Contains(lower, ToLower(HALLS[m]))
    requires forall j :: k <= j < m ==> !Contains(lower, ToLower(HALLS[j]))
    ensures FullNameHall(lower, k) == HALLS[m]
    decreases m - k
  {
    if k < m {
      FullNameHallFirst(lower, k + 1, m);
    }
  }

  lemma {:induction false} FullNameHallNone(lower: string, k: nat)
    requires k <= |HALLS|
    requires forall j :: k <= j < |HALLS| ==> !Contains(lower, ToLower(HALLS[j]))
    ensures FullNameHall(lower, k) == ""
    decreases |HALLS| - k
  {
    if k < |HALLS| {
      FullNameHallNone(lower, k + 1);
    }
  }

  /** Hall extraction yields `""` or a catalog hall: the first hall in catalog
      order whose full name occurs, or else the hall of the first partial name. */
  lemma HallOfSpec(lower: string)
    ensures HallOf(lower) == "" || HallOf(lower) in HALLS
    ensures forall m :: 0 <= m < |HALLS| && Contains(lower, ToLower(HALLS[m]))
                        && (forall j :: 0 <= j < m ==> !Contains(lower, ToLower(HALLS[j])))
                        ==> HallOf(lower) == HALLS[m]
    ensures (forall j :: 0 <= j < |HALLS| ==> !Contains(lower, ToLower(HALLS[j])))
            ==> HallOf(lower) == AliasHall(lower)
  {
    forall m | 0 <= m < |HALLS| && Contains(lower, ToLower(HALLS[m]))
      && (forall j :: 0 <= j < m ==> !Contains(lower, ToLower(HALLS[j])))
      ensures HallOf(lower) == HALLS[m]
    {
      FullNameHallFirst(lower, 0, m);
    }
    if forall j :: 0 <= j < |HALLS| ==> !Contains(lower, ToLower(HALLS[j])) {
      FullNameHallNone(lower, 0);
    }
  }

  /** The handler's hall extraction as written: a loop over the catalog that
      stops at the first full name the message contains, then the partial
      names in their fixed order. */
  method ExtractHall(lowerMsg: string) returns (hall: string)
    ensures hall == HallOf(lowerMsg)
    ensures hall == "" || hall in HALLS
  {
    hall := "";
    var i := 0;
    while i < |HALLS|
      invariant 0 <= i <= |HALLS|
      invariant hall == ""
      invariant forall j :: 0 <= j < i ==> !Contains(lowerMsg, ToLower(HALLS[j]))
    {
      if Contains(lowerMsg, ToLower(HALLS[i])) {
        hall := HALLS[i];
        break;
      }
      i := i + 1;
    }
    if hall != "" {
      FullNameHallFirst(lowerMsg, 0, i);
    } else {
      FullNameHallNone(lowerMsg, 0);
      hall := AliasHall(lowerMsg);
    }
  }
}
