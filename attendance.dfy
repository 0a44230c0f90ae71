/** Daily attendance: the `AttendanceRecord` model
    (backend/app/Models/AttendanceRecord.php) with its mutators and
    accessors, and the check-in / check-out state machine of
    `AttendanceController` (backend/app/Http/Controllers/Api/AttendanceController.php)
    over the table of records keyed by user and day, with the role filter
    of its listings. Instants are seconds on the application's local
    clock, supplied by the caller. */
module Attendance {
  import opened Base
  import Listing

  datatype Date = Date(year: nat, month: nat, day: nat)

  /** Calendar order on dates. */
  predicate DateLe(a: Date, b: Date) {
    a.year < b.year || (a.year == b.year && (a.month < b.month || (a.month == b.month && a.day <= b.day)))
  }

  /** The `status` column. `late` is no longer written but older rows may
      still hold it. */
  datatype Status = Present | Late | Absent

  /** Carbon's `diffInMinutes`: whole minutes between two instants,
      whichever comes first. */
  function DiffInMinutes(a: int, b: int): (m: nat)
    ensures m * 60 <= if a <= b then b - a else a - b
    ensures (if a <= b then b - a else a - b) < (m + 1) * 60
  {
    if a <= b then (b - a) / 60 else (a - b) / 60
  }

  /** A check-out `m` minutes and `s` seconds after the check-in gives `m`. */
  lemma DiffInMinutesOfSpan(t: int, m: nat, s: nat)
    requires s < 60
    ensures DiffInMinutes(t, t + m * 60 + s) == m
  {
  }

  /** The number of leading decimal digits of `s`. */
  function LeadingDigits(s: string): (n: nat)
    ensures n <= |s| && AllDigits(s[..n])
    ensures n < |s| ==> !IsDigit(s[n])
    decreases |s|
  {
    if s == [] || !IsDigit(s[0]) then 0
    else
      var k := LeadingDigits(s[1..]);
      assert s[..k + 1] == [s[0]] + s[1..][..k];
      k + 1
  }

  lemma {:induction false} LeadingDigitsOf(d: string, t: string)
    requires AllDigits(d) && (t == [] || !IsDigit(t[0]))
    ensures LeadingDigits(d + t) == |d|
    decreases |d|
  {
    if d != [] {
      assert (d + t)[1..] == d[1..] + t;
      LeadingDigitsOf(d[1..], t);
    }
  }

  const JamSep := " jam "
  const MenitSuffix := " menit"

  /** The `work_hours_formatted` accessor: "{hours} jam {minutes} menit",
      or nothing when the minutes are absent or zero. */
  function FormatWorkHours(w: Option<nat>): (r: Option<string>)
    ensures r.None? <==> (w.None? || w.value == 0)
  {
    if w.None? || w.value == 0 then None
    else Some(NatToString(w.value / 60) + JamSep + NatToString(w.value % 60) + MenitSuffix)
  }

  /** Reads "{hours} jam {minutes} menit" back into its two numbers. */
  function ParseWorkHours(s: string): Option<(nat, nat)> {
    var n := LeadingDigits(s);
    if n == 0 || !IsPrefix(JamSep, s[n..]) then None
    else
      var rest := s[n..][|JamSep|..];
      var m := LeadingDigits(rest);
      if m == 0 || rest[m..] != MenitSuffix then None
      else Some((DigitsValue(s[..n]), DigitsValue(rest[..m])))
  }

  lemma ParseOfDigits(h: string, m: string)
    requires h != [] && m != [] && AllDigits(h) && AllDigits(m)
    ensures ParseWorkHours(h + JamSep + m + MenitSuffix) == Some((DigitsValue(h), DigitsValue(m)))
  {
    var rest := m + MenitSuffix;
    var tail := JamSep + rest;
    ConcatAssoc(h, JamSep, m);
    ConcatAssoc(h + JamSep, m, MenitSuffix);
    ConcatAssoc(h, JamSep, rest);
    ConcatAssoc(JamSep, m, MenitSuffix);
    LeadingDigitsOf(h, tail);
    DropFront(h, tail);
    DropFront(JamSep, rest);
    LeadingDigitsOf(m, MenitSuffix);
    DropFront(m, MenitSuffix);
  }

  /** The formatted work hours name the whole hours and the remaining
      minutes, the latter always below 60, and together they give back the
      stored minutes. */
  lemma FormatWorkHoursReadsBack(w: nat)
    requires w > 0
    ensures FormatWorkHours(Some(w)).Some?
    ensures var p := ParseWorkHours(FormatWorkHours(Some(w)).value);
      p == Some((w / 60, w % 60)) && p.value.1 < 60 && p.value.0 * 60 + p.value.1 == w
  {
    ParseOfDigits(NatToString(w / 60), NatToString(w % 60));
    NatToStringRoundTrip(w / 60);
    NatToStringRoundTrip(w % 60);
  }

  const PhotoFolder := "storage/attendance/"

  /** The photo URL accessors: the asset URL of the stored file name, or
      nothing when no (truthy) name is stored. */
  function PhotoUrl(root: string, name: Option<string>): (url: Option<string>)
    ensures url.Some? <==> TruthyOpt(name)
    ensures url.Some? ==> url.value == root + "/" + PhotoFolder + name.value
  {
    if TruthyOpt(name) then Some(Asset(root, PhotoFolder + name.value)) else None
  }

  /** A record as the listings and the export read it, with the user's
      name when the user still exists. */
  datatype Row = Row(
    userId: nat,
    userName: Option<string>,
    date: Date,
    checkIn: Option<int>,
    checkOut: Option<int>,
    status: Status,
    notes: Option<string>,
    workHours: Option<nat>)

  /** `scopePresent`: status `present` or the legacy `late`. */
  function PresentScope(rows: seq<Row>): (r: seq<Row>)
    ensures forall i :: 0 <= i < |r| ==> r[i] in rows && r[i].status in {Present, Late}
    ensures forall i :: 0 <= i < |rows| && rows[i].status != Absent ==> rows[i] in r
  {
    Listing.Filter(rows, (x: Row) => x.status == Present || x.status == Late)
  }

  /** One row of `attendance_records`, with the model's mutators. */
  class AttendanceRecord {
    const userId: nat
    const date: Date
    var checkIn: Option<int>
    var checkOut: Option<int>
    var status: Status
    var notes: Option<string>
    var workHours: Option<nat>
    var checkInPhoto: Option<string>
    var checkOutPhoto: Option<string>

    constructor (userId: nat, date: Date, status: Status)
      ensures this.userId == userId && this.date == date && this.status == status
      ensures checkIn.None? && checkOut.None? && notes.None? && workHours.None?
      ensures checkInPhoto.None? && checkOutPhoto.None?
    {
      this.userId := userId;
      this.date := date;
      this.status := status;
      checkIn := None;
      checkOut := None;
      notes := None;
      workHours := None;
      checkInPhoto := None;
      checkOutPhoto := None;
    }

    /** `setCheckInAttribute`: stores the value; a check-in makes the
        record present. */
    method SetCheckIn(v: Option<int>)
      modifies this
      ensures checkIn == v
      ensures status == (if v.Some? then Present else old(status))
      ensures checkOut == old(checkOut) && notes == old(notes) && workHours == old(workHours)
      ensures checkInPhoto == old(checkInPhoto) && checkOutPhoto == old(checkOutPhoto)
    {
      checkIn := v;
      if checkIn.Some? {
        status := Present;
      }
    }

    /** `setCheckOutAttribute`: stores the value; when both instants are
        known the minutes between them become the work hours, otherwise
        the work hours are left as they were. */
    method SetCheckOut(v: Option<int>)
      modifies this
      ensures checkOut == v
      ensures workHours == (if checkIn.Some? && v.Some? then Some(DiffInMinutes(checkIn.value, v.value)) else old(workHours))
      ensures checkIn == old(checkIn) && status == old(status) && notes == old(notes)
      ensures checkInPhoto == old(checkInPhoto) && checkOutPhoto == old(checkOutPhoto)
    {
      checkOut := v;
      if checkIn.Some? && checkOut.Some? {
        workHours := Some(DiffInMinutes(checkIn.value, checkOut.value));
      }
    }

    function WorkHoursFormatted(): Option<string>
      reads this
    {
      FormatWorkHours(workHours)
    }

    function CheckInPhotoUrl(root: string): Option<string>
      reads this
    {
      PhotoUrl(root, checkInPhoto)
    }

    function CheckOutPhotoUrl(root: string): Option<string>
      reads this
    {
      PhotoUrl(root, checkOutPhoto)
    }

    function Snapshot(userName: Option<string>): Row
      reads this
    {
      Row(userId, userName, date, checkIn, checkOut, status, notes, workHours)
    }
  }

  datatype AttendanceError =
    | Invalid(field: string)  // a validation rule fails: 422
    | AlreadyCheckedIn        // "You have already checked in today": 400
    | NotCheckedIn            // "You must check in first": 400
    | AlreadyCheckedOut       // "You have already checked out today": 400

  /** `notes` is `nullable|string|max:500` on both actions. */
  predicate NotesTooLong(notes: Option<string>) {
    notes.Some? && |notes.value| > 500
  }

  /** The records, at most one per user and day (the map's key). */
  class AttendanceBook {
    var records: map<(nat, Date), AttendanceRecord>

    ghost predicate Valid()
      reads this, records.Values
    {
      forall k :: k in records ==> records[k].userId == k.0 && records[k].date == k.1
    }

    constructor ()
      ensures Valid() && records == map[]
    {
      records := map[];
    }

    /** `checkIn`: refused when today's record already has a check-in;
        otherwise today's record (created if missing) gets the check-in
        instant, status `present`, the request's notes and photo. */
    method CheckIn(userId: nat, today: Date, now: int, notes: Option<string>, photo: Option<string>)
      returns (r: Result<AttendanceRecord, AttendanceError>)
      requires Valid()
      modifies this, records.Values
      ensures Valid()
      ensures var key := (userId, today);
        && (NotesTooLong(notes) ==> r == Err(Invalid("notes")))
        && (!NotesTooLong(notes) && key in old(records) && old(records[key].checkIn).Some? ==> r == Err(AlreadyCheckedIn))
        && (r.Err? ==> records == old(records) && forall k :: k in records ==> unchanged(records[k]))
        && (r.Ok? ==>
              && records == old(records)[key := r.value]
              && r.value.checkIn == Some(now) && r.value.status == Present
              && r.value.notes == notes && r.value.checkInPhoto == photo
              && (key in old(records) ==>
                    && r.value == old(records[key])
                    && r.value.checkOut == old(records[key].checkOut)
                    && r.value.workHours == old(records[key].workHours)
                    && r.value.checkOutPhoto == old(records[key].checkOutPhoto))
              && (key !in old(records) ==>
                    fresh(r.value) && r.value.checkOut.None? && r.value.workHours.None? && r.value.checkOutPhoto.None?))
      ensures r.Ok? <==> (!NotesTooLong(notes) && !((userId, today) in old(records) && old(records[(userId, today)].checkIn).Some?))
      ensures forall k :: k in old(records) && k != (userId, today) ==> unchanged(old(records[k]))
    {
      if NotesTooLong(notes) {
        return Err(Invalid("notes"));
      }
      var key := (userId, today);
      if key in records && records[key].checkIn.Some? {
        return Err(AlreadyCheckedIn);
      }
      var rec: AttendanceRecord;
      if key in records {
        rec := records[key];
      } else {
        rec := new AttendanceRecord(userId, today, Present);
      }
      rec.SetCheckIn(Some(now));
      rec.status := Present;
      rec.notes := notes;
      rec.checkInPhoto := photo;
      records := records[key := rec];
      r := Ok(rec);
    }

    /** `checkOut`: refused without a check-in today or after a check-out
        today; otherwise the record gets the check-out instant (and so its
        work hours), keeps its notes unless the request sends truthy ones,
        and takes the request's photo. */
    method CheckOut(userId: nat, today: Date, now: int, notes: Option<string>, photo: Option<string>)
      returns (r: Result<AttendanceRecord, AttendanceError>)
      requires Valid()
      modifies records.Values
      ensures Valid() && records == old(records)
      ensures var key := (userId, today);
        && (NotesTooLong(notes) ==> r == Err(Invalid("notes")))
        && (!NotesTooLong(notes) && !(key in records && old(records[key].checkIn).Some?) ==> r == Err(NotCheckedIn))
        && (!NotesTooLong(notes) && key in records && old(records[key].checkIn).Some? && old(records[key].checkOut).Some? ==>
              r == Err(AlreadyCheckedOut))
        && (r.Err? ==> forall k :: k in records ==> unchanged(records[k]))
        && (r.Ok? ==>
              && key in records && r.value == records[key]
              && r.value.checkIn == old(records[key].checkIn) && r.value.checkIn.Some?
              && r.value.checkOut == Some(now)
              && r.value.workHours == Some(DiffInMinutes(r.value.checkIn.value, now))
              && r.value.notes == (if TruthyOpt(notes) then notes else old(records[key].notes))
              && r.value.checkOutPhoto == photo
              && r.value.status == old(records[key].status)
              && r.value.checkInPhoto == old(records[key].checkInPhoto))
      ensures r.Ok? <==> (!NotesTooLong(notes) && (userId, today) in records
        && old(records[(userId, today)].checkIn).Some? && old(records[(userId, today)].checkOut).None?)
      ensures forall k :: k in records && k != (userId, today) ==> unchanged(records[k])
    {
      if NotesTooLong(notes) {
        return Err(Invalid("notes"));
      }
      var key := (userId, today);
      if key !in records || records[key].checkIn.None? {
        return Err(NotCheckedIn);
      }
      var rec := records[key];
      if rec.checkOut.Some? {
        return Err(AlreadyCheckedOut);
      }
      rec.SetCheckOut(Some(now));
      rec.notes := if TruthyOpt(notes) then notes else rec.notes;
      rec.checkOutPhoto := photo;
      r := Ok(rec);
    }
  }

  /** A day from check-in to check-out: the first check-in succeeds, a
      second one is refused, the check-out succeeds with the minutes
      worked, and a second check-out is refused. */
  method OneDay(userId: nat, today: Date, at: int, minutes: nat)
    returns (first: Result<AttendanceRecord, AttendanceError>, second: Result<AttendanceRecord, AttendanceError>,
             out: Result<AttendanceRecord, AttendanceError>, again: Result<AttendanceRecord, AttendanceError>,
             worked: Option<nat>)
    ensures first.Ok? && second == Err(AlreadyCheckedIn)
    ensures out.Ok? && worked == Some(minutes)
    ensures again == Err(AlreadyCheckedOut)
  {
    var book := new AttendanceBook();
    var key := (userId, today);
    first := book.CheckIn(userId, today, at, None, None);
    assert key in book.records && book.records[key].checkIn == Some(at) && book.records[key].checkOut.None?;
    second := book.CheckIn(userId, today, at + 30, None, None);
    assert book.records[key].checkIn == Some(at) && book.records[key].checkOut.None?;
    out := book.CheckOut(userId, today, at + minutes * 60, Some("selesai"), None);
    DiffInMinutesOfSpan(at, minutes, 0);
    worked := out.value.workHours;
    again := book.CheckOut(userId, today, at + minutes * 60 + 5, None, None);
  }

  /** Admins and managers see every record; anyone else only their own. */
  predicate SeesAll(role: string) {
    role == "admin" || role == "manager"
  }

  /** The role filter of `index` and `exportExcel`. */
  function VisibleRows(rows: seq<Row>, role: string, viewer: nat): (r: seq<Row>)
    ensures SeesAll(role) ==> r == rows
    ensures !SeesAll(role) ==> forall i :: 0 <= i < |r| ==> r[i] in rows && r[i].userId == viewer
    ensures forall i :: 0 <= i < |rows| && rows[i].userId == viewer ==> rows[i] in r
  {
    if SeesAll(role) then rows else Listing.Filter(rows, (x: Row) => x.userId == viewer)
  }

  /** The other filters of the listings: a date range and a search on
      the user's name (which a record without a user never matches). */
  datatype RowFilter = RowFilter(dateFrom: Option<Date>, dateTo: Option<Date>, search: Option<string>)

  predicate MatchesFilter(x: Row, f: RowFilter) {
    && (f.dateFrom.None? || DateLe(f.dateFrom.value, x.date))
    && (f.dateTo.None? || DateLe(x.date, f.dateTo.value))
    && (f.search.None? || (x.userName.Some? && Like(x.userName.value, f.search.value)))
  }

  /** The filters as a `where` clause. */
  function RowWhere(f: RowFilter): Row -> bool {
    (x: Row) => MatchesFilter(x, f)
  }

  /** `orderBy('date', 'desc')`. */
  function LatestFirst(): (Row, Row) -> bool {
    (a: Row, b: Row) => DateLe(b.date, a.date)
  }

  lemma LatestFirstIsTotalPreorder()
    ensures Listing.TotalPreorder(LatestFirst())
  {
  }

  /** `index`: page `page` (15 rows by default) of the visible, matching
      rows, latest day first. */
  function Index(rows: seq<Row>, role: string, viewer: nat, f: RowFilter, page: int, perPage: nat): (p: Listing.Page<Row>)
    ensures forall i :: 0 <= i < |p.items| ==>
      p.items[i] in rows && MatchesFilter(p.items[i], f) && (SeesAll(role) || p.items[i].userId == viewer)
    ensures Listing.SortedBy(p.items, LatestFirst())
    ensures p.total == |Listing.Filter(VisibleRows(rows, role, viewer), RowWhere(f))|
    ensures Listing.IsPageOf(p, VisibleRows(rows, role, viewer), RowWhere(f), LatestFirst(), page, perPage)
  {
    LatestFirstIsTotalPreorder();
    var visible := VisibleRows(rows, role, viewer);
    var p := Listing.Query(visible, RowWhere(f), LatestFirst(), page, perPage);
    forall i | 0 <= i < |p.items| ensures p.items[i] in rows && (SeesAll(role) || p.items[i].userId == viewer) {
      var j :| 0 <= j < |visible| && visible[j] == p.items[i];
    }
    p
  }

  /** Every record the viewer may see that matches the filters is listed
      on one of the pages of `index`. */
  lemma IndexListsEveryMatch(rows: seq<Row>, role: string, viewer: nat, f: RowFilter, perPage: nat, i: nat)
    requires i < |rows| && (SeesAll(role) || rows[i].userId == viewer) && MatchesFilter(rows[i], f)
    ensures exists k ::
      1 <= k <= Index(rows, role, viewer, f, 1, perPage).lastPage && rows[i] in Index(rows, role, viewer, f, k, perPage).items
  {
    var visible := VisibleRows(rows, role, viewer);
    LatestFirstIsTotalPreorder();
    assert rows[i] in visible;
    Listing.QueryFindsMatch(visible, RowWhere(f), LatestFirst(), perPage, rows[i]);
    var k :| 1 <= k <= Listing.LastPage(|Listing.Filter(visible, RowWhere(f))|, Listing.PageSize(perPage))
      && rows[i] in Listing.Query(visible, RowWhere(f), LatestFirst(), k, perPage).items;
    assert Index(rows, role, viewer, f, k, perPage) == Listing.Query(visible, RowWhere(f), LatestFirst(), k, perPage);
  }

  /** The rows `exportExcel` writes: the same role filter; its filters
      apply only when truthy, so an empty search filters nothing; latest
      day first; no pagination. */
  function ExportRows(rows: seq<Row>, role: string, viewer: nat, f: RowFilter): (r: seq<Row>)
    ensures forall i :: 0 <= i < |r| ==> r[i] in rows && (SeesAll(role) || r[i].userId == viewer)
    ensures forall i :: 0 <= i < |r| ==> MatchesFilter(r[i], ExportFilter(f))
    ensures Listing.SortedBy(r, LatestFirst())
    ensures multiset(r) == multiset(Listing.Filter(VisibleRows(rows, role, viewer), RowWhere(ExportFilter(f))))
  {
    LatestFirstIsTotalPreorder();
    var visible := VisibleRows(rows, role, viewer);
    var selected := Listing.Filter(visible, RowWhere(ExportFilter(f)));
    Listing.SortBySorted(selected, LatestFirst());
    var r := Listing.SortBy(selected, LatestFirst());
    forall i | 0 <= i < |r| ensures r[i] in rows && (SeesAll(role) || r[i].userId == viewer) && MatchesFilter(r[i], ExportFilter(f)) {
      assert r[i] in multiset(r);
      Listing.FilterMember(visible, RowWhere(ExportFilter(f)), r[i]);
    }
    r
  }

  function ExportFilter(f: RowFilter): RowFilter {
    f.(search := if TruthyOpt(f.search) then f.search else None)
  }
}
