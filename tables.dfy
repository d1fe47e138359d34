/** The `users` and `bookings` tables as in-memory rows, and the queries the
    handlers run against them, each read as an operation on a list of records. */
module Tables {
  import opened Wrappers
  import opened Seqs
  import opened Text
  import opened Catalog

  /** `role`: `'user'` for every signup, `'admin'` for administrators. */
  datatype Role = Member | Admin

  /** A row of `users`; `password` is the stored (hashed) credential. */
  datatype User = User(id: nat, name: string, email: string, phone: string, password: string, role: Role)

  /** A row of `bookings`. */
  datatype Booking = Booking(id: nat, userId: nat, hall: string, date: Day, slots: seq<string>, purpose: string)

  /** `hall = $1 AND booking_date = $2`. */
  predicate IsAt(b: Booking, hall: string, date: Day)
  {
    b.hall == hall && b.date == date
  }

  /** `SELECT ... FROM bookings WHERE hall = $1 AND booking_date = $2`. */
  function RowsAt(rows: seq<Booking>, hall: string, date: Day): (r: seq<Booking>)
    ensures forall b :: b in r <==> b in rows && IsAt(b, hall, date)
  {
    Filter(rows, (b: Booking) => IsAt(b, hall, date))
  }

  /** `SELECT * FROM bookings WHERE hall = $1 AND booking_date = $2 AND slots && $3`:
      the rows at that hall and date that share at least one slot with the request. */
  function ConflictRows(rows: seq<Booking>, hall: string, date: Day, slots: seq<string>): (r: seq<Booking>)
    ensures forall b :: b in r <==> b in rows && IsAt(b, hall, date) && Overlaps(b.slots, slots)
    ensures r == [] <==> forall b :: b in rows && IsAt(b, hall, date) ==> !Overlaps(b.slots, slots)
  {
    var r := Filter(rows, (b: Booking) => IsAt(b, hall, date) && Overlaps(b.slots, slots));
    assert r != [] ==> r[0] in r;
    r
  }

  /** `rows.flatMap(row => row.slots)`: every row's slots, concatenated in row order. */
  function SlotsOf(rows: seq<Booking>): (r: seq<string>)
    ensures forall s :: s in r <==> exists b :: b in rows && s in b.slots
  {
    if rows == [] then []
    else
      assert forall b :: b in rows <==> b == rows[0] || b in rows[1..];
      rows[0].slots + SlotsOf(rows[1..])
  }

  /** The booked slots of a hall on a date (GET `/api/availability`, and the
      chat availability check): a slot is listed exactly when some row at
      that hall and date holds it, once per row holding it. */
  function BookedSlots(rows: seq<Booking>, hall: string, date: Day): (r: seq<string>)
    ensures forall s :: s in r <==> exists b :: b in rows && IsAt(b, hall, date) && s in b.slots
  {
    SlotsOf(RowsAt(rows, hall, date))
  }

  /** No two distinct rows at the same hall and date share a slot. */
  predicate NoDoubleBooking(rows: seq<Booking>)
  {
    forall a, b :: a in rows && b in rows && a.id != b.id && a.hall == b.hall && a.date == b.date
      ==> !Overlaps(a.slots, b.slots)
  }

  /** No two positions of the table hold the same `id` (the serial key). */
  predicate UniqueIds(rows: seq<Booking>)
  {
    forall i, j :: 0 <= i < j < |rows| ==> rows[i].id != rows[j].id
  }

  /** Appending a row whose id no stored row has keeps the ids unique. */
  lemma AppendFreshKeepsUniqueIds(rows: seq<Booking>, nb: Booking)
    requires UniqueIds(rows) && forall b :: b in rows ==> b.id != nb.id
    ensures UniqueIds(rows + [nb])
  {
    var r := rows + [nb];
    forall i, j | 0 <= i < j < |r| ensures r[i].id != r[j].id {
      assert r[i] == rows[i];
      if j < |rows| {
        assert r[j] == rows[j];
      } else {
        assert rows[i] in rows;
      }
    }
  }

  /** Filtering a table with unique ids keeps them unique. */
  lemma {:induction false} FilterKeepsUniqueIds(rows: seq<Booking>, p: Booking -> bool)
    ensures UniqueIds(rows) ==> UniqueIds(Filter(rows, p))
  {
    if rows != [] && UniqueIds(rows) {
      var tail := rows[1..];
      forall i, j | 0 <= i < j < |tail| ensures tail[i].id != tail[j].id {
        assert tail[i] == rows[i + 1] && tail[j] == rows[j + 1];
      }
      FilterKeepsUniqueIds(tail, p);
      if p(rows[0]) {
        var r := [rows[0]] + Filter(tail, p);
        forall i, j | 0 <= i < j < |r| ensures r[i].id != r[j].id {
          if i == 0 {
            assert r[j] in tail;
            var k :| 0 <= k < |tail| && tail[k] == r[j];
            assert rows[k + 1] == r[j];
          } else {
            assert r[i] == Filter(tail, p)[i - 1] && r[j] == Filter(tail, p)[j - 1];
          }
        }
      }
    }
  }

  /** Adding a row with a fresh id and no conflicting row keeps the table
      free of double bookings. */
  lemma InsertKeepsNoDoubleBooking(rows: seq<Booking>, nb: Booking)
    requires NoDoubleBooking(rows)
    requires forall b :: b in rows ==> b.id != nb.id
    requires ConflictRows(rows, nb.hall, nb.date, nb.slots) == []
    ensures NoDoubleBooking(rows + [nb])
  {
    forall a, b | a in rows + [nb] && b in rows + [nb] && a.id != b.id && a.hall == b.hall && a.date == b.date
      ensures !Overlaps(a.slots, b.slots)
    {
      if a == nb && b != nb {
        assert b in rows && IsAt(b, nb.hall, nb.date);
      } else if b == nb && a != nb {
        assert a in rows && IsAt(a, nb.hall, nb.date);
      }
    }
  }

  /** Every row of `small` is a row of `big`, so `small` keeps the property. */
  lemma SubsetKeepsNoDoubleBooking(big: seq<Booking>, small: seq<Booking>)
    requires NoDoubleBooking(big)
    requires forall b :: b in small ==> b in big
    ensures NoDoubleBooking(small)
  {
  }

  // ----- Listing a user's upcoming bookings: ORDER BY booking_date, hall LIMIT 10

  /** `a` sorts no later than `b` under `ORDER BY booking_date, hall`. */
  predicate Before(a: Booking, b: Booking)
  {
    a.date < b.date || (a.date == b.date && LexLe(a.hall, b.hall))
  }

  predicate SortedByDateHall(s: seq<Booking>)
  {
    forall i :: 0 <= i < |s| - 1 ==> Before(s[i], s[i + 1])
  }

  function InsertByDateHall(x: Booking, s: seq<Booking>): (r: seq<Booking>)
    requires SortedByDateHall(s)
    ensures SortedByDateHall(r)
    ensures multiset(r) == multiset(s) + multiset{x}
    ensures |r| == |s| + 1 && (r[0] == x || (s != [] && r[0] == s[0]))
  {
    if s == [] || Before(x, s[0]) then [x] + s
    else
      LexLeTotal(x.hall, s[0].hall);
      assert s == [s[0]] + s[1..];
      [s[0]] + InsertByDateHall(x, s[1..])
  }

  /** Insertion sort by date, then hall. */
  function SortByDateHall(s: seq<Booking>): (r: seq<Booking>)
    ensures SortedByDateHall(r)
    ensures multiset(r) == multiset(s)
  {
    if s == [] then []
    else
      assert s == [s[0]] + s[1..];
      InsertByDateHall(s[0], SortByDateHall(s[1..]))
  }

  lemma BeforeTransitive(a: Booking, b: Booking, c: Booking)
    requires Before(a, b) && Before(b, c)
    ensures Before(a, c)
  {
    if a.date == b.date && b.date == c.date {
      LexLeTransitive(a.hall, b.hall, c.hall);
    }
  }

  lemma {:induction false} SortedBefore(s: seq<Booking>, i: nat, j: nat)
    requires SortedByDateHall(s) && i <= j < |s|
    ensures Before(s[i], s[j])
    decreases j - i
  {
    if i == j {
      LexLeTotal(s[i].hall, s[i].hall);
    } else {
      SortedBefore(s, i + 1, j);
      BeforeTransitive(s[i], s[i + 1], s[j]);
    }
  }

  /** The rows the chat's view-bookings query selects: the user's, dated today or later. */
  function OwnUpcoming(rows: seq<Booking>, userId: nat, today: Day): (r: seq<Booking>)
    ensures forall b :: b in r <==> b in rows && b.userId == userId && b.date >= today
  {
    Filter(rows, (b: Booking) => b.userId == userId && b.date >= today)
  }

  const VIEW_LIMIT: nat := 10

  /** `WHERE user_id = $1 AND booking_date >= CURRENT_DATE ORDER BY booking_date, hall LIMIT 10`. */
  function UpcomingFor(rows: seq<Booking>, userId: nat, today: Day): (r: seq<Booking>)
    ensures |r| == if |OwnUpcoming(rows, userId, today)| <= VIEW_LIMIT then |OwnUpcoming(rows, userId, today)| else VIEW_LIMIT
    ensures forall b :: b in r ==> b in rows && b.userId == userId && b.date >= today
    ensures SortedByDateHall(r)
    ensures multiset(r) <= multiset(OwnUpcoming(rows, userId, today))
  {
    var own := OwnUpcoming(rows, userId, today);
    var sorted := SortByDateHall(own);
    assert forall b :: b in sorted ==> b in multiset(own);
    if |sorted| <= VIEW_LIMIT then sorted
    else
      assert sorted == sorted[..VIEW_LIMIT] + sorted[VIEW_LIMIT..];
      sorted[..VIEW_LIMIT]
  }

  /** In a sorted list, nothing after the first `n` rows sorts before any of them. */
  lemma SortedPrefixIsEarliest(s: seq<Booking>, n: nat)
    requires SortedByDateHall(s) && n <= |s|
    ensures forall a, b :: a in s[..n] && b in s[n..] ==> Before(a, b)
  {
    forall a, b | a in s[..n] && b in s[n..]
      ensures Before(a, b)
    {
      var i :| 0 <= i < n && s[..n][i] == a;
      var j :| 0 <= j < |s| - n && s[n..][j] == b;
      SortedBefore(s, i, n + j);
    }
  }

  /** The listed rows are the earliest ones: every qualifying row left out by
      the limit sorts no earlier than every listed row. */
  lemma UpcomingIsEarliest(rows: seq<Booking>, userId: nat, today: Day)
    ensures forall a, b ::
              a in UpcomingFor(rows, userId, today)
              && b in multiset(OwnUpcoming(rows, userId, today)) - multiset(UpcomingFor(rows, userId, today))
              ==> Before(a, b)
  {
    var own := OwnUpcoming(rows, userId, today);
    var sorted := SortByDateHall(own);
    var r := UpcomingFor(rows, userId, today);
    if |sorted| > VIEW_LIMIT {
      assert r == sorted[..VIEW_LIMIT];
      assert sorted == r + sorted[VIEW_LIMIT..];
      assert multiset(own) - multiset(r) == multiset(sorted[VIEW_LIMIT..]);
      SortedPrefixIsEarliest(sorted, VIEW_LIMIT);
    } else {
      assert r == sorted;
      assert multiset(own) - multiset(r) == multiset{};
    }
  }

  // ----- Users

  /** `SELECT * FROM users WHERE email = $1` finds a row. */
  predicate EmailTaken(users: seq<User>, email: string)
  {
    exists u :: u in users && u.email == email
  }

  /** No two positions of `users` hold the same email (the `UNIQUE` column). */
  predicate UniqueEmails(users: seq<User>)
  {
    forall i, j :: 0 <= i < j < |users| ==> users[i].email != users[j].email
  }

  /** A row whose email no later row has, in front of unique rows. */
  lemma ConsKeepsUniqueEmails(u: User, rest: seq<User>)
    requires UniqueEmails(rest) && forall v :: v in rest ==> v.email != u.email
    ensures UniqueEmails([u] + rest)
  {
    var r := [u] + rest;
    forall i, j | 0 <= i < j < |r| ensures r[i].email != r[j].email {
      assert r[j] == rest[j - 1];
      if i > 0 {
        assert r[i] == rest[i - 1];
      }
    }
  }

  /** Filtering keeps the emails unique: the user delete keeps the invariant. */
  lemma {:induction false} FilterKeepsUniqueEmails(users: seq<User>, p: User -> bool)
    ensures UniqueEmails(users) ==> UniqueEmails(Filter(users, p))
  {
    if users != [] && UniqueEmails(users) {
      var tail := users[1..];
      forall i, j | 0 <= i < j < |tail| ensures tail[i].email != tail[j].email {
        assert tail[i] == users[i + 1] && tail[j] == users[j + 1];
      }
      FilterKeepsUniqueEmails(tail, p);
      if p(users[0]) {
        forall v | v in Filter(tail, p) ensures v.email != users[0].email {
          var k :| 0 <= k < |tail| && tail[k] == v;
          assert users[k + 1] == v;
        }
        ConsKeepsUniqueEmails(users[0], Filter(tail, p));
      }
    }
  }

  /** `result.rows[0]` of the lookup by email: the first row with that email. */
  function FindByEmail(users: seq<User>, email: string): (r: Option<User>)
    ensures r.None? <==> !EmailTaken(users, email)
    ensures r.Some? ==> r.value in users && r.value.email == email
  {
    if users == [] then None
    else if users[0].email == email then Some(users[0])
    else
      assert forall u :: u in users ==> u == users[0] || u in users[1..];
      FindByEmail(users[1..], email)
  }

  /** Under unique emails the lookup by a row's email returns that row. */
  lemma {:induction false} FindByEmailUnique(users: seq<User>, u: User)
    requires UniqueEmails(users) && u in users
    ensures FindByEmail(users, u.email) == Some(u)
  {
    var k :| 0 <= k < |users| && users[k] == u;
    if users[0].email == u.email {
      assert k == 0;
    } else {
      var tail := users[1..];
      assert tail[k - 1] == u;
      forall i, j | 0 <= i < j < |tail| ensures tail[i].email != tail[j].email {
        assert tail[i] == users[i + 1] && tail[j] == users[j + 1];
      }
      FindByEmailUnique(tail, u);
    }
  }

  /** Appending a row whose email is not taken keeps emails unique. */
  lemma AppendKeepsUniqueEmails(users: seq<User>, nu: User)
    requires UniqueEmails(users) && !EmailTaken(users, nu.email)
    ensures UniqueEmails(users + [nu])
  {
    var r := users + [nu];
    forall i, j | 0 <= i < j < |r| ensures r[i].email != r[j].email {
      assert r[i] == users[i];
      if j < |users| {
        assert r[j] == users[j];
      } else {
        assert users[i] in users;
      }
    }
  }

  /** `DELETE FROM users WHERE id = $1 AND role != 'admin'`. */
  function WithoutMember(users: seq<User>, id: nat): (r: seq<User>)
    ensures forall u :: u in r <==> u in users && (u.id != id || u.role == Admin)
    ensures forall u :: u in users && u.role == Admin ==> u in r
    ensures IsSubsequence(r, users)
    ensures UniqueEmails(users) ==> UniqueEmails(r)
  {
    var keep := (u: User) => u.id != id || u.role == Admin;
    FilterIsSubsequence(users, keep);
    FilterKeepsUniqueEmails(users, keep);
    Filter(users, keep)
  }

  // ----- Cancelling a booking

  /** `DELETE FROM bookings WHERE id = $1 AND user_id = $2`. */
  function WithoutOwned(rows: seq<Booking>, id: nat, userId: nat): (r: seq<Booking>)
    ensures forall b :: b in r <==> b in rows && (b.id != id || b.userId != userId)
    ensures forall b :: b in rows && b.userId != userId ==> b in r
    ensures IsSubsequence(r, rows)
    ensures UniqueIds(rows) ==> UniqueIds(r)
  {
    var keep := (b: Booking) => b.id != id || b.userId != userId;
    FilterIsSubsequence(rows, keep);
    FilterKeepsUniqueIds(rows, keep);
    Filter(rows, keep)
  }
}
