/** Timetable slot admission (`timetable-actions.ts`): the request schema,
    the section and teacher conflict queries, slot creation and deletion, and
    the per-section read of the timetable. */
module Timetable {
  import opened Common

  /** A row of the timetable table. */
  datatype Slot = Slot(
    id: string,
    subjectMappingId: string,
    dayOfWeek: int,
    startTime: string,
    endTime: string,
    roomNumber: Option<string>)

  /** The data submitted to `createTimeSlot`. */
  datatype SlotRequest = SlotRequest(
    subjectMappingId: string,
    dayOfWeek: int,
    startTime: string,
    endTime: string,
    roomNumber: Option<string>)

  /** A subject mapping as `findUnique` with `include: { section, teacher }`
      returns it: the ids the conflict checks need and the teacher's name for
      the error message. */
  datatype MappingView = MappingView(sectionId: string, teacherId: string, teacherName: string)

  // ---------------------------------------------------------------------------
  // Time strings
  // ---------------------------------------------------------------------------

  predicate IsDigit(c: char) {
    '0' <= c <= '9'
  }

  /** The pattern `^([0-1]?[0-9]|2[0-3]):[0-5][0-9]$`: an hour of one digit,
      or two digits up to 23, a colon, and two minute digits up to 59. */
  predicate IsTime(t: string) {
    || (|t| == 4 && IsDigit(t[0]) && t[1] == ':' && '0' <= t[2] <= '5' && IsDigit(t[3]))
    || (&& |t| == 5
        && (('0' <= t[0] <= '1' && IsDigit(t[1])) || (t[0] == '2' && '0' <= t[1] <= '3'))
        && t[2] == ':' && '0' <= t[3] <= '5' && IsDigit(t[4]))
  }

  /** The zero-padded `HH:MM` form, the only one whose string order is clock order. */
  predicate IsPadded(t: string) {
    IsTime(t) && |t| == 5
  }

  function DigitValue(c: char): int {
    c as int - '0' as int
  }

  function Hour(t: string): (h: int)
    requires IsTime(t)
    ensures 0 <= h < 24
  {
    if |t| == 4 then DigitValue(t[0]) else 10 * DigitValue(t[0]) + DigitValue(t[1])
  }

  function Minute(t: string): (m: int)
    requires IsTime(t)
    ensures 0 <= m < 60
  {
    10 * DigitValue(t[|t| - 2]) + DigitValue(t[|t| - 1])
  }

  /** Minute of the day a time string denotes. */
  function Minutes(t: string): (n: int)
    requires IsTime(t)
    ensures 0 <= n < 24 * 60
  {
    Hour(t) * 60 + Minute(t)
  }

  /** For zero-padded times, the string comparison the schema and the conflict
      queries use agrees with the clock. */
  lemma PaddedOrderIsClockOrder(a: string, b: string)
    requires IsPadded(a) && IsPadded(b)
    ensures Less(a, b) <==> Minutes(a) < Minutes(b)
  {
    var a1, b1 := a[1..], b[1..];
    var a2, b2 := a1[1..], b1[1..];
    var a3, b3 := a2[1..], b2[1..];
    var a4, b4 := a3[1..], b3[1..];
    var a5, b5 := a4[1..], b4[1..];
    assert a5 == [] && b5 == [];
    if a[0] != b[0] {
      assert Less(a, b) == (a[0] < b[0]);
    } else if a[1] != b[1] {
      assert Less(a, b) == Less(a1, b1) == (a1[0] < b1[0]);
    } else if a[3] != b[3] {
      assert Less(a, b) == Less(a1, b1) == Less(a2, b2) == Less(a3, b3) == (a3[0] < b3[0]);
    } else {
      assert Less(a, b) == Less(a1, b1) == Less(a2, b2) == Less(a3, b3) == Less(a4, b4);
      assert Less(a4, b4) == (a4[0] < b4[0]);
    }
  }

  /** The pattern also admits unpadded hours, and there string order and clock
      order part: "9:00" is earlier than "10:00" on the clock but later as a
      string, so a 9:00-10:00 request is refused and a 10:00-9:00 one accepted. */
  lemma UnpaddedOrderDiverges()
    ensures IsTime("9:00") && IsTime("10:00")
    ensures Minutes("9:00") < Minutes("10:00")
    ensures Less("10:00", "9:00") && !Less("9:00", "10:00")
    ensures ValidateSlot(SlotRequest("m", 1, "9:00", "10:00", None)).Rejected?
    ensures ValidateSlot(SlotRequest("m", 1, "10:00", "9:00", None)).Accepted?
  {
    assert "10:00"[0] == '1' && "9:00"[0] == '9';
  }

  // ---------------------------------------------------------------------------
  // The request schema
  // ---------------------------------------------------------------------------

  /** `TimeSlotSchema`: a mapping id is given, the day lies in 0..6, both times
      match the pattern, and the end time is (as a string) after the start. */
  function ValidateSlot(req: SlotRequest): (r: Parsed<SlotRequest>)
    ensures r.Accepted? <==>
              && req.subjectMappingId != [] && 0 <= req.dayOfWeek <= 6
              && IsTime(req.startTime) && IsTime(req.endTime) && Less(req.startTime, req.endTime)
    ensures r.Accepted? ==> r.value == req
  {
    if && req.subjectMappingId != []
       && 0 <= req.dayOfWeek <= 6
       && IsTime(req.startTime)
       && IsTime(req.endTime)
       && Less(req.startTime, req.endTime)
    then Accepted(req)
    else Rejected
  }

  /** On zero-padded times the schema accepts exactly the requests whose end
      is after their start on the clock; an equal end is always refused. */
  lemma ValidatePaddedSlot(req: SlotRequest)
    requires req.subjectMappingId != [] && 0 <= req.dayOfWeek <= 6
    requires IsPadded(req.startTime) && IsPadded(req.endTime)
    ensures ValidateSlot(req).Accepted? <==> Minutes(req.startTime) < Minutes(req.endTime)
  {
    PaddedOrderIsClockOrder(req.startTime, req.endTime);
  }

  lemma EqualTimesRefused(req: SlotRequest)
    requires req.startTime == req.endTime
    ensures ValidateSlot(req).Rejected?
  {
    LessIrreflexive(req.startTime);
  }

  // ---------------------------------------------------------------------------
  // Overlap
  // ---------------------------------------------------------------------------

  /** The `OR` filter of the conflict queries, for an existing slot
      `[es, ee)` and a candidate `[s, e)`: the candidate starts during the
      existing slot, ends during it, or encloses it. */
  predicate ConflictFilter(es: string, ee: string, s: string, e: string) {
    || (LessEq(es, s) && Less(s, ee))
    || (Less(es, e) && LessEq(e, ee))
    || (LessEq(s, es) && LessEq(ee, e))
  }

  /** Half-open intervals `[es, ee)` and `[s, e)` share a point. */
  predicate Overlaps(es: string, ee: string, s: string, e: string) {
    Less(es, e) && Less(s, ee)
  }

  /** For non-empty intervals the three-case filter is exactly half-open overlap. */
  lemma ConflictFilterIsOverlap(es: string, ee: string, s: string, e: string)
    requires Less(es, ee) && Less(s, e)
    ensures ConflictFilter(es, ee, s, e) <==> Overlaps(es, ee, s, e)
  {
    if ConflictFilter(es, ee, s, e) {
      if LessEq(es, s) && Less(s, ee) {
        if es != s { LessTransitive(es, s, e); }
      } else if Less(es, e) && LessEq(e, ee) {
        if e != ee { LessTransitive(s, e, ee); }
      } else {
        if s != es { LessTransitive(s, es, ee); }
        if ee != e { LessTransitive(es, ee, e); }
      }
    }
    if Overlaps(es, ee, s, e) {
      LessTotal(es, s);
      LessTotal(ee, e);
    }
  }

  /** On zero-padded times, string overlap is overlap of the clock intervals. */
  lemma PaddedOverlapIsClockOverlap(es: string, ee: string, s: string, e: string)
    requires IsPadded(es) && IsPadded(ee) && IsPadded(s) && IsPadded(e)
    ensures Overlaps(es, ee, s, e) <==> Minutes(es) < Minutes(e) && Minutes(s) < Minutes(ee)
  {
    PaddedOrderIsClockOrder(es, e);
    PaddedOrderIsClockOrder(s, ee);
  }

  // ---------------------------------------------------------------------------
  // Conflict queries and the store invariant
  // ---------------------------------------------------------------------------

  /** The section query: a slot of a mapping in `sectionId`, on `day`, that the filter matches. */
  predicate SectionConflict(slots: seq<Slot>, mappings: map<string, MappingView>,
                            sectionId: string, day: int, s: string, e: string)
  {
    exists i :: 0 <= i < |slots| && SectionHit(slots[i], mappings, sectionId, day, s, e)
  }

  predicate SectionHit(x: Slot, mappings: map<string, MappingView>,
                       sectionId: string, day: int, s: string, e: string)
  {
    && x.subjectMappingId in mappings
    && mappings[x.subjectMappingId].sectionId == sectionId
    && x.dayOfWeek == day
    && ConflictFilter(x.startTime, x.endTime, s, e)
  }

  /** The teacher query: a slot of a mapping taught by `teacherId`, in any section. */
  predicate TeacherConflict(slots: seq<Slot>, mappings: map<string, MappingView>,
                            teacherId: string, day: int, s: string, e: string)
  {
    exists i :: 0 <= i < |slots| && TeacherHit(slots[i], mappings, teacherId, day, s, e)
  }

  predicate TeacherHit(x: Slot, mappings: map<string, MappingView>,
                       teacherId: string, day: int, s: string, e: string)
  {
    && x.subjectMappingId in mappings
    && mappings[x.subjectMappingId].teacherId == teacherId
    && x.dayOfWeek == day
    && ConflictFilter(x.startTime, x.endTime, s, e)
  }

  /** Reference meaning of the section check: some slot of the section on
      that day overlaps `[s, e)` as half-open intervals. */
  ghost predicate SectionBusy(slots: seq<Slot>, mappings: map<string, MappingView>,
                              sectionId: string, day: int, s: string, e: string)
  {
    exists x :: x in slots && x.subjectMappingId in mappings
      && mappings[x.subjectMappingId].sectionId == sectionId
      && x.dayOfWeek == day && Overlaps(x.startTime, x.endTime, s, e)
  }

  /** Reference meaning of the teacher check, over the slots of every section. */
  ghost predicate TeacherBusy(slots: seq<Slot>, mappings: map<string, MappingView>,
                              teacherId: string, day: int, s: string, e: string)
  {
    exists x :: x in slots && x.subjectMappingId in mappings
      && mappings[x.subjectMappingId].teacherId == teacherId
      && x.dayOfWeek == day && Overlaps(x.startTime, x.endTime, s, e)
  }

  /** A stored slot passed the schema and points at a known mapping. */
  predicate WellFormed(x: Slot, mappings: map<string, MappingView>) {
    && x.subjectMappingId in mappings
    && 0 <= x.dayOfWeek <= 6
    && IsTime(x.startTime) && IsTime(x.endTime)
    && Less(x.startTime, x.endTime)
  }

  /** Two slots on one day, of one section or one teacher, whose times overlap. */
  predicate Clash(a: Slot, b: Slot, mappings: map<string, MappingView>) {
    && a.subjectMappingId in mappings && b.subjectMappingId in mappings
    && a.dayOfWeek == b.dayOfWeek
    && (|| mappings[a.subjectMappingId].sectionId == mappings[b.subjectMappingId].sectionId
        || mappings[a.subjectMappingId].teacherId == mappings[b.subjectMappingId].teacherId)
    && Overlaps(a.startTime, a.endTime, b.startTime, b.endTime)
  }

  ghost predicate NoClash(slots: seq<Slot>, mappings: map<string, MappingView>) {
    forall a, b :: a in slots && b in slots && a.id != b.id ==> !Clash(a, b, mappings)
  }

  predicate DistinctIds(slots: seq<Slot>) {
    forall i, j :: 0 <= i < j < |slots| ==> slots[i].id != slots[j].id
  }

  /** When every stored slot is non-empty, the section query finds a slot
      exactly when some slot of that section and day overlaps the request. */
  lemma SectionQueryFindsOverlap(slots: seq<Slot>, mappings: map<string, MappingView>,
                                 sectionId: string, day: int, s: string, e: string)
    requires forall x :: x in slots ==> Less(x.startTime, x.endTime)
    requires Less(s, e)
    ensures SectionConflict(slots, mappings, sectionId, day, s, e) <==>
            SectionBusy(slots, mappings, sectionId, day, s, e)
  {
    forall i | 0 <= i < |slots| {
      ConflictFilterIsOverlap(slots[i].startTime, slots[i].endTime, s, e);
    }
  }

  /** The same for the teacher query, across all sections. */
  lemma TeacherQueryFindsOverlap(slots: seq<Slot>, mappings: map<string, MappingView>,
                                 teacherId: string, day: int, s: string, e: string)
    requires forall x :: x in slots ==> Less(x.startTime, x.endTime)
    requires Less(s, e)
    ensures TeacherConflict(slots, mappings, teacherId, day, s, e) <==>
            TeacherBusy(slots, mappings, teacherId, day, s, e)
  {
    forall i | 0 <= i < |slots| {
      ConflictFilterIsOverlap(slots[i].startTime, slots[i].endTime, s, e);
    }
  }

  /** Removing slots keeps their ids distinct. */
  lemma {:induction false} FilterKeepsIdsDistinct(slots: seq<Slot>, p: Slot -> bool)
    requires DistinctIds(slots)
    ensures DistinctIds(Filter(slots, p))
  {
    if slots != [] {
      FilterKeepsIdsDistinct(slots[1..], p);
      var rest := Filter(slots[1..], p);
      assert forall j :: 0 <= j < |rest| ==> rest[j] in slots[1..];
      assert forall x :: x in slots[1..] ==> x.id != slots[0].id;
    }
  }

  function NotId(id: string): Slot -> bool {
    (x: Slot) => x.id != id
  }

  function InSection(mappings: map<string, MappingView>, sectionId: string): Slot -> bool {
    (x: Slot) => x.subjectMappingId in mappings && mappings[x.subjectMappingId].sectionId == sectionId
  }

  /** `orderBy: [{ dayOfWeek: 'asc' }, { startTime: 'asc' }]`. */
  function DayThenStart(a: Slot, b: Slot): bool {
    a.dayOfWeek < b.dayOfWeek || (a.dayOfWeek == b.dayOfWeek && LessEq(a.startTime, b.startTime))
  }

  lemma DayThenStartIsPreorder()
    ensures TotalPreorder(DayThenStart)
  {
    ByTextIsPreorder((x: Slot) => x.startTime);
    assert forall a, b :: (DayThenStart(a, b) ==
      (a.dayOfWeek < b.dayOfWeek ||
       (a.dayOfWeek == b.dayOfWeek && ByText((x: Slot) => x.startTime)(a, b))));
  }

  const SectionConflictMessage := "This section already has a class scheduled at this time."

  function TeacherConflictMessage(teacherName: string): string {
    "Teacher " + teacherName + " is already teaching elsewhere at this time."
  }

  /** The timetable table, with the subject-mapping rows it is checked against. */
  class TimetableStore {
    var mappings: map<string, MappingView>
    var slots: seq<Slot>

    /** Every slot is well formed, ids are distinct, and no two slots of one
        section, or of one teacher, overlap on a day. */
    ghost predicate Valid()
      reads this
    {
      && DistinctIds(slots)
      && (forall x :: x in slots ==> WellFormed(x, mappings))
      && NoClash(slots, mappings)
    }

    constructor (mappings: map<string, MappingView>)
      ensures Valid()
      ensures this.mappings == mappings && slots == []
    {
      this.mappings := mappings;
      slots := [];
    }

    /** `createTimeSlot`: validate, resolve the mapping, run the section check,
        then the teacher check, and insert one slot only if both pass.
        `newId` is the id the database generates for the new row. */
    method CreateTimeSlot(req: SlotRequest, newId: string) returns (r: Outcome)
      requires Valid()
      requires forall x :: x in slots ==> x.id != newId
      modifies this
      ensures Valid() && mappings == old(mappings)
      ensures ValidateSlot(req).Rejected? ==> r == Failure(ValidationError)
      ensures ValidateSlot(req).Accepted? && req.subjectMappingId !in mappings ==>
                r == Failure(Message("Invalid Subject Assignment"))
      ensures ValidateSlot(req).Accepted? && req.subjectMappingId in mappings &&
              SectionBusy(old(slots), mappings, mappings[req.subjectMappingId].sectionId,
                          req.dayOfWeek, req.startTime, req.endTime)
              ==> r == Failure(Message(SectionConflictMessage))
      ensures ValidateSlot(req).Accepted? && req.subjectMappingId in mappings &&
              !SectionBusy(old(slots), mappings, mappings[req.subjectMappingId].sectionId,
                           req.dayOfWeek, req.startTime, req.endTime) &&
              TeacherBusy(old(slots), mappings, mappings[req.subjectMappingId].teacherId,
                          req.dayOfWeek, req.startTime, req.endTime)
              ==> r == Failure(Message(TeacherConflictMessage(mappings[req.subjectMappingId].teacherName)))
      ensures r == Success <==>
                && ValidateSlot(req).Accepted?
                && req.subjectMappingId in mappings
                && !exists x :: x in old(slots) && Clash(x, NewSlot(newId, req), mappings)
      ensures r == Success ==> slots == old(slots) + [NewSlot(newId, req)]
      ensures r != Success ==> slots == old(slots)
    {
      if ValidateSlot(req).Rejected? {
        return Failure(ValidationError);
      }
      if req.subjectMappingId !in mappings {
        return Failure(Message("Invalid Subject Assignment"));
      }
      var mapping := mappings[req.subjectMappingId];
      var s, e := req.startTime, req.endTime;
      SectionQueryFindsOverlap(slots, mappings, mapping.sectionId, req.dayOfWeek, s, e);
      TeacherQueryFindsOverlap(slots, mappings, mapping.teacherId, req.dayOfWeek, s, e);
      var x := NewSlot(newId, req);
      forall y | y in slots
        ensures Clash(y, x, mappings) <==>
          (|| (mappings[y.subjectMappingId].sectionId == mapping.sectionId && y.dayOfWeek == req.dayOfWeek
                 && Overlaps(y.startTime, y.endTime, s, e))
           || (mappings[y.subjectMappingId].teacherId == mapping.teacherId && y.dayOfWeek == req.dayOfWeek
                 && Overlaps(y.startTime, y.endTime, s, e)))
      {
      }
      if SectionConflict(slots, mappings, mapping.sectionId, req.dayOfWeek, s, e) {
        return Failure(Message(SectionConflictMessage));
      }
      if TeacherConflict(slots, mappings, mapping.teacherId, req.dayOfWeek, s, e) {
        return Failure(Message(TeacherConflictMessage(mapping.teacherName)));
      }
      slots := slots + [x];
      r := Success;
    }

    /** `deleteTimeSlot`: removes the row with that id and nothing else; an
        unknown id makes the delete throw, reported as a fixed message. */
    method DeleteTimeSlot(id: string) returns (r: Outcome)
      requires Valid()
      modifies this
      ensures Valid() && mappings == old(mappings)
      ensures r == Success <==> exists x :: x in old(slots) && x.id == id
      ensures r == Success ==> slots == Filter(old(slots), NotId(id)) && |slots| == |old(slots)| - 1
      ensures r != Success ==> r == Failure(Message("Failed to delete slot")) && slots == old(slots)
    {
      if !exists i :: 0 <= i < |slots| && slots[i].id == id {
        return Failure(Message("Failed to delete slot"));
      }
      var i :| 0 <= i < |slots| && slots[i].id == id;
      FilterKeepsIdsDistinct(slots, NotId(id));
      RemoveOneById(slots, id, i);
      var kept := Filter(slots, NotId(id));
      slots := kept;
      r := Success;
    }

    /** `getTimeTable`: the slots of one section's mappings, each as often as
        stored, ordered by day and then by start time. */
    function TimeTable(sectionId: string): (r: seq<Slot>)
      reads this
      ensures forall x :: multiset(r)[x] == if InSection(mappings, sectionId)(x) then multiset(slots)[x] else 0
      ensures SortedBy(r, DayThenStart)
    {
      DayThenStartIsPreorder();
      SortBy(Filter(slots, InSection(mappings, sectionId)), DayThenStart)
    }
  }

  /** The row `createTimeSlot` writes. */
  function NewSlot(id: string, req: SlotRequest): Slot {
    Slot(id, req.subjectMappingId, req.dayOfWeek, req.startTime, req.endTime, req.roomNumber)
  }

  /** Overlap is decided on the time strings, and the pattern admits one clock
      time spelt two ways. With a 9:00-9:30 slot stored, a 09:00-09:30 request
      for the same mapping passes the schema and clashes with nothing, so
      `CreateTimeSlot` accepts it, although both cover the same half hour. */
  lemma SpellingDoubleBooks(mappings: map<string, MappingView>, m: string, id: string, newId: string)
    requires m in mappings && m != [] && id != newId
    ensures WellFormed(Slot(id, m, 1, "9:00", "9:30", None), mappings)
    ensures NoClash([Slot(id, m, 1, "9:00", "9:30", None)], mappings)
    ensures ValidateSlot(SlotRequest(m, 1, "09:00", "09:30", None)).Accepted?
    ensures !Clash(Slot(id, m, 1, "9:00", "9:30", None),
                   NewSlot(newId, SlotRequest(m, 1, "09:00", "09:30", None)), mappings)
    ensures Minutes("9:00") == Minutes("09:00") && Minutes("9:30") == Minutes("09:30")
  {
    assert "9:00"[0] == '9' && "09:30"[0] == '0';
    assert !Less("9:00", "09:30");
    assert Less("9:00", "9:30") by {
      assert "9:00"[1..] == ":00" && "9:30"[1..] == ":30";
      assert ":00"[1..] == "00" && ":30"[1..] == "30";
    }
    assert Less("09:00", "09:30") by {
      assert "09:00"[1..] == "9:00" && "09:30"[1..] == "9:30";
      assert "9:00"[1..] == ":00" && "9:30"[1..] == ":30";
      assert ":00"[1..] == "00" && ":30"[1..] == "30";
    }
  }

  /** When every time is zero-padded, the store invariant is clock separation:
      two slots of one section, or of one teacher, on one day never share a
      minute. */
  lemma PaddedNoClashIsClockSeparation(slots: seq<Slot>, mappings: map<string, MappingView>, a: Slot, b: Slot)
    requires NoClash(slots, mappings)
    requires a in slots && b in slots && a.id != b.id
    requires IsPadded(a.startTime) && IsPadded(a.endTime) && IsPadded(b.startTime) && IsPadded(b.endTime)
    requires a.subjectMappingId in mappings && b.subjectMappingId in mappings
    requires a.dayOfWeek == b.dayOfWeek
    requires || mappings[a.subjectMappingId].sectionId == mappings[b.subjectMappingId].sectionId
             || mappings[a.subjectMappingId].teacherId == mappings[b.subjectMappingId].teacherId
    ensures !(Minutes(a.startTime) < Minutes(b.endTime) && Minutes(b.startTime) < Minutes(a.endTime))
  {
    assert !Clash(a, b, mappings);
    PaddedOverlapIsClockOverlap(a.startTime, a.endTime, b.startTime, b.endTime);
  }

  /** Filtering out an id held by exactly one slot removes exactly one row. */
  lemma {:induction false} RemoveOneById(slots: seq<Slot>, id: string, i: int)
    requires DistinctIds(slots) && 0 <= i < |slots| && slots[i].id == id
    ensures |Filter(slots, NotId(id))| == |slots| - 1
  {
    if i == 0 {
      KeepAllOthers(slots[1..], id);
    } else {
      RemoveOneById(slots[1..], id, i - 1);
    }
  }

  lemma {:induction false} KeepAllOthers(slots: seq<Slot>, id: string)
    requires forall x :: x in slots ==> x.id != id
    ensures |Filter(slots, NotId(id))| == |slots|
  {
    if slots != [] {
      KeepAllOthers(slots[1..], id);
    }
  }
}
