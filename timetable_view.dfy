/** The weekly grid of `TimeTableView.tsx`: where a slot card is placed
    (one pixel per minute from 08:00), how tall it is, which colour it gets,
    and which day column draws it. */
module TimetableView {
  import opened Common
  import opened Timetable

  /** `START_HOUR`. */
  const StartHour := 8

  /** `DAYS`: Monday to Saturday; there is no Sunday (day 0) column. */
  const Days: seq<int> := [1, 2, 3, 4, 5, 6]

  /** `HOURS`: twelve hour labels from `START_HOUR` on. */
  const Hours: seq<int> := seq(12, i => StartHour + i)

  lemma HoursAreEightToNineteen()
    ensures |Hours| == 12
    ensures forall h :: h in Hours <==> 8 <= h <= 19
  {
    forall h | 8 <= h <= 19 ensures h in Hours {
      assert Hours[h - 8] == h;
    }
  }

  /** `getPosition`: the minutes from 08:00 to `t`, and 0 for any earlier time. */
  function Position(t: string): (p: int)
    requires IsTime(t)
    ensures p >= 0
    ensures Minutes(t) >= StartHour * 60 ==> p == Minutes(t) - StartHour * 60
    ensures Minutes(t) < StartHour * 60 ==> p == 0
  {
    var fromStart := (Hour(t) - StartHour) * 60 + Minute(t);
    if fromStart > 0 then fromStart else 0
  }

  /** "08:00" is the top of the grid, and a later time is never placed higher. */
  lemma PositionIsMonotone(a: string, b: string)
    requires IsTime(a) && IsTime(b) && Minutes(a) <= Minutes(b)
    ensures Position(a) <= Position(b)
    ensures Position("08:00") == 0
  {
    assert IsTime("08:00");
  }

  /** `getHeight`. */
  function Height(start: string, end: string): int
    requires IsTime(start) && IsTime(end)
  {
    Position(end) - Position(start)
  }

  /** From 08:00 on, the card is as tall as the slot lasts; a slot starting
      earlier is cut at the top of the grid, so its card is shorter than the
      slot's duration. */
  lemma HeightIsDuration(start: string, end: string)
    requires IsTime(start) && IsTime(end)
    ensures Hour(start) >= StartHour && Hour(end) >= StartHour ==>
              Height(start, end) == Minutes(end) - Minutes(start)
    ensures Hour(start) < StartHour && Minutes(start) < Minutes(end) ==>
              Height(start, end) < Minutes(end) - Minutes(start)
  {
  }

  /** Validation compares times as strings, so an accepted slot can end
      before it starts on the clock; its card then has a negative height. */
  lemma AcceptedSlotWithNegativeHeight()
    ensures ValidateSlot(SlotRequest("m", 1, "10:00", "9:30", None)).Accepted?
    ensures Height("10:00", "9:30") == -30
  {
    assert "10:00"[0] == '1' && "9:30"[0] == '9';
    assert Less("10:00", "9:30");
    assert Minutes("10:00") == 600 && Minutes("9:30") == 570;
  }

  /** A card's colours: background, border and text. */
  datatype Color = Color(bg: string, border: string, text: string)

  /** The five colours of `getColor`: blue, green, yellow, red, purple. */
  const Palette: seq<Color> := [
    Color("#dbeafe", "#3b82f6", "#1e40af"),
    Color("#dcfce7", "#22c55e", "#166534"),
    Color("#fef9c3", "#eab308", "#854d0e"),
    Color("#fee2e2", "#ef4444", "#991b1b"),
    Color("#f3e8ff", "#a855f7", "#6b21a8")
  ]

  /** `getColor`: picked by the length of the subject code, modulo the
      palette size. */
  function ColorOf(code: string): (c: Color)
    ensures c in Palette
    ensures c == Palette[|code| % 5]
  {
    Palette[|code| % |Palette|]
  }

  /** Only the length of the code matters: codes of equal length, or of
      lengths five apart, share a colour; codes of lengths one apart do not. */
  lemma ColorDependsOnLengthOnly(a: string, b: string)
    ensures |a| == |b| ==> ColorOf(a) == ColorOf(b)
    ensures |b| == |a| + 5 ==> ColorOf(a) == ColorOf(b)
    ensures |b| == |a| + 1 ==> ColorOf(a) != ColorOf(b)
  {
    if |b| == |a| + 1 {
      var i, j := |a| % 5, |b| % 5;
      assert j == (i + 1) % 5;
      assert Palette[i].bg != Palette[j].bg by {
        assert Palette[i].bg[3] != Palette[j].bg[3] || Palette[i].bg[4] != Palette[j].bg[4];
      }
    }
  }

  function OnDay(day: int): Slot -> bool {
    (s: Slot) => s.dayOfWeek == day
  }

  /** The cards of one day column: `slots.filter(s => s.dayOfWeek === day)`. */
  function SlotsOfDay(slots: seq<Slot>, day: int): (r: seq<Slot>)
    ensures forall s :: s in r <==> s in slots && s.dayOfWeek == day
  {
    var r := Filter(slots, OnDay(day));
    assert forall s :: s in r <==> multiset(r)[s] > 0;
    assert forall s :: s in slots <==> multiset(slots)[s] > 0;
    r
  }

  /** Whether a slot appears in some column of the grid. */
  predicate Drawn(slots: seq<Slot>, s: Slot) {
    exists d :: d in Days && s in SlotsOfDay(slots, d)
  }

  /** A slot is drawn exactly when its day has a column (1 to 6), and then
      in its own day's column only; a Sunday (day 0) slot is never drawn. */
  lemma DrawnIffWeekday(slots: seq<Slot>, s: Slot)
    requires s in slots
    ensures Drawn(slots, s) <==> 1 <= s.dayOfWeek <= 6
    ensures forall d :: d in Days && s in SlotsOfDay(slots, d) ==> d == s.dayOfWeek
    ensures s.dayOfWeek == 0 ==> !Drawn(slots, s)
  {
    if 1 <= s.dayOfWeek <= 6 {
      assert s.dayOfWeek in Days;
      assert s in SlotsOfDay(slots, s.dayOfWeek);
    }
  }
}
