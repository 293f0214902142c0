/**
 The clock face (`Time` and `Clock`): a time of day split into six digit
 columns, hour tens and ones, minute tens and ones, second tens and ones,
 each paired with the range of values its column displays.
 */
module ClockFace {
  import opened KotlinInt
  import opened DigitColumn

  /** `data class Time(hours, minutes, seconds)`. */
  datatype Time = Time(hours: int, minutes: int, seconds: int)

  /** What `Calendar` yields for HOUR_OF_DAY, MINUTE and SECOND. */
  predicate Valid(t: Time) {
    0 <= t.hours < 24 && 0 <= t.minutes < 60 && 0 <= t.seconds < 60
  }

  /** One value per column of the face, left to right. */
  datatype Face<T> = Face(
    hourTens: T, hourOnes: T,
    minuteTens: T, minuteOnes: T,
    secondTens: T, secondOnes: T)

  /** The input of one `NumberColumn` call: a digit and its column's range. */
  datatype Slot = Slot(current: int, range: Range)

  /** The column ranges. */
  const HourTensRange: Range := Range(0, 2)
  const TensRange: Range := Range(0, 5)
  const OnesRange: Range := Range(0, 9)

  /** The six `NumberColumn` inputs `Clock(time)` computes. */
  function Slots(t: Time): (f: Face<Slot>)
    ensures f.hourTens.range == HourTensRange && f.hourOnes.range == OnesRange
    ensures f.minuteTens.range == TensRange && f.minuteOnes.range == OnesRange
    ensures f.secondTens.range == TensRange && f.secondOnes.range == OnesRange
  {
    Face(Slot(Div(t.hours, 10), HourTensRange),
         Slot(Rem(t.hours, 10), OnesRange),
         Slot(Div(t.minutes, 10), TensRange),
         Slot(Rem(t.minutes, 10), OnesRange),
         Slot(Div(t.seconds, 10), TensRange),
         Slot(Rem(t.seconds, 10), OnesRange))
  }

  /** The column `NumberColumn` derives from one input, with 40 dp cells. */
  function ColumnOf(s: Slot): ColumnState {
    NumberColumn(s.current, s.range, CellSize)
  }

  /** The six columns `Clock(time)` lays out. Every range starts at 0, so a
      column resets exactly when its digit is 0. */
  function Clock(t: Time): (f: Face<ColumnState>)
    ensures f.hourTens.reset <==> Slots(t).hourTens.current == 0
    ensures f.hourOnes.reset <==> Slots(t).hourOnes.current == 0
    ensures f.minuteTens.reset <==> Slots(t).minuteTens.current == 0
    ensures f.minuteOnes.reset <==> Slots(t).minuteOnes.current == 0
    ensures f.secondTens.reset <==> Slots(t).secondTens.current == 0
    ensures f.secondOnes.reset <==> Slots(t).secondOnes.current == 0
  {
    var s := Slots(t);
    Face(ColumnOf(s.hourTens), ColumnOf(s.hourOnes),
         ColumnOf(s.minuteTens), ColumnOf(s.minuteOnes),
         ColumnOf(s.secondTens), ColumnOf(s.secondOnes))
  }

  /** Reading a time back off six digits: tens times ten plus ones. */
  function Recompose(f: Face<Slot>): Time {
    Time(f.hourTens.current * 10 + f.hourOnes.current,
         f.minuteTens.current * 10 + f.minuteOnes.current,
         f.secondTens.current * 10 + f.secondOnes.current)
  }

  predicate InRange(s: Slot) {
    s.range.Contains(s.current)
  }

  /** The layout Slots produces: the fixed ranges, each holding a digit. */
  predicate WellFormed(f: Face<Slot>) {
    && f.hourTens.range == HourTensRange && f.hourOnes.range == OnesRange
    && f.minuteTens.range == TensRange && f.minuteOnes.range == OnesRange
    && f.secondTens.range == TensRange && f.secondOnes.range == OnesRange
    && InRange(f.hourTens) && InRange(f.hourOnes)
    && InRange(f.minuteTens) && InRange(f.minuteOnes)
    && InRange(f.secondTens) && InRange(f.secondOnes)
  }

  /** Every column of the face uses `spec`. */
  predicate AllAnimate(f: Face<ColumnState>, spec: AnimationSpec) {
    && f.hourTens.animationSpec == spec && f.hourOnes.animationSpec == spec
    && f.minuteTens.animationSpec == spec && f.minuteOnes.animationSpec == spec
    && f.secondTens.animationSpec == spec && f.secondOnes.animationSpec == spec
  }

  // ---------------------------------------------------------------------
  // Digit split

  /** Splitting a non-negative number by ten with Kotlin's operators gives a
      tens part and a ones digit that add back up to it. */
  lemma SplitTen(n: int)
    requires 0 <= n
    ensures 0 <= Rem(n, 10) <= 9
    ensures Div(n, 10) * 10 + Rem(n, 10) == n
  {
  }

  /** Every digit of a valid time lies in the range of its column:
      hour tens in 0..2, minute and second tens in 0..5, ones in 0..9. */
  lemma SlotsInRange(t: Time)
    requires Valid(t)
    ensures WellFormed(Slots(t))
  {
    SplitTen(t.hours);
    SplitTen(t.minutes);
    SplitTen(t.seconds);
  }

  /** The six digits of a valid time give the time back. */
  lemma RoundTrip(t: Time)
    requires Valid(t)
    ensures Recompose(Slots(t)) == t
  {
    SplitTen(t.hours);
    SplitTen(t.minutes);
    SplitTen(t.seconds);
  }

  /** Hence two valid times with the same digits are the same time. */
  lemma SlotsInjective(t1: Time, t2: Time)
    requires Valid(t1) && Valid(t2)
    requires Slots(t1) == Slots(t2)
    ensures t1 == t2
  {
    RoundTrip(t1);
    RoundTrip(t2);
  }

  /** A tens part and a ones digit are what splitting their number gives. */
  lemma SplitOfTensOnes(tens: int, ones: int)
    requires 0 <= tens && 0 <= ones <= 9
    ensures Div(tens * 10 + ones, 10) == tens
    ensures Rem(tens * 10 + ones, 10) == ones
  {
    DivUnique(tens * 10 + ones, 10, tens, ones);
  }

  /** Conversely, any six in-range digits are the digits of the number they
      spell (even an hour such as 29 that no clock shows). */
  lemma SplitOfRecompose(f: Face<Slot>)
    requires WellFormed(f)
    ensures Slots(Recompose(f)) == f
  {
    var s := Slots(Recompose(f));
    assert s.hourTens == f.hourTens && s.hourOnes == f.hourOnes by {
      SplitOfTensOnes(f.hourTens.current, f.hourOnes.current);
    }
    assert s.minuteTens == f.minuteTens && s.minuteOnes == f.minuteOnes by {
      SplitOfTensOnes(f.minuteTens.current, f.minuteOnes.current);
    }
    assert s.secondTens == f.secondTens && s.secondOnes == f.secondOnes by {
      SplitOfTensOnes(f.secondTens.current, f.secondOnes.current);
    }
  }

  // ---------------------------------------------------------------------
  // Columns of a valid time

  /** A column whose range starts at 0 chooses the spring exactly when its
      digit is 0, and the tween otherwise. */
  lemma SpringIffZero(s: Slot)
    requires s.range.first == 0
    ensures ColumnOf(s).reset <==> s.current == 0
    ensures ColumnOf(s).animationSpec == if s.current == 0 then RolloverSpec else TickSpec
  {
    CurveSelection(s.current, s.range, CellSize);
  }

  /** The column of an in-range digit highlights exactly one cell, that of
      its digit, and its offset stays within half its height of rest. */
  predicate ShowsDigit(s: Slot, c: ColumnState) {
    && 0 <= s.current - s.range.first < |c.cells|
    && ActiveCount(c.cells) == 1
    && c.cells[s.current - s.range.first] == Cell(true, s.current)
    && -CellSize * c.mid <= c.targetOffset <= CellSize * c.mid
  }

  lemma ColumnShowsDigit(s: Slot)
    requires s.range.first == 0 && InRange(s)
    ensures ShowsDigit(s, ColumnOf(s))
  {
    ExactlyOneActive(s.current, s.range, CellSize);
    OffsetBounds(s.current, s.range, CellSize);
  }

  /** Each of the six columns of a valid time shows its digit. */
  lemma ColumnsOfValidTime(t: Time)
    requires Valid(t)
    ensures ShowsDigit(Slots(t).hourTens, Clock(t).hourTens)
    ensures ShowsDigit(Slots(t).hourOnes, Clock(t).hourOnes)
    ensures ShowsDigit(Slots(t).minuteTens, Clock(t).minuteTens)
    ensures ShowsDigit(Slots(t).minuteOnes, Clock(t).minuteOnes)
    ensures ShowsDigit(Slots(t).secondTens, Clock(t).secondTens)
    ensures ShowsDigit(Slots(t).secondOnes, Clock(t).secondOnes)
  {
    SlotsInRange(t);
    var s := Slots(t);
    ColumnShowsDigit(s.hourTens);
    ColumnShowsDigit(s.hourOnes);
    ColumnShowsDigit(s.minuteTens);
    ColumnShowsDigit(s.minuteOnes);
    ColumnShowsDigit(s.secondTens);
    ColumnShowsDigit(s.secondOnes);
  }

  // ---------------------------------------------------------------------
  // Ticks

  /** On the hour the four minute and second digits are the first of their
      ranges, so those four columns roll over with the spring. */
  lemma OnTheHourSpring(t: Time)
    requires Valid(t) && t.minutes == 0 && t.seconds == 0
    ensures Slots(t).minuteTens.current == 0 && Slots(t).minuteOnes.current == 0
    ensures Slots(t).secondTens.current == 0 && Slots(t).secondOnes.current == 0
    ensures Clock(t).minuteTens.animationSpec == RolloverSpec
    ensures Clock(t).minuteOnes.animationSpec == RolloverSpec
    ensures Clock(t).secondTens.animationSpec == RolloverSpec
    ensures Clock(t).secondOnes.animationSpec == RolloverSpec
  {
  }

  /** At midnight all six digits are the first of their ranges. */
  lemma MidnightSlots()
    ensures Slots(Time(0, 0, 0)) ==
      Face(Slot(0, HourTensRange), Slot(0, OnesRange), Slot(0, TensRange),
           Slot(0, OnesRange), Slot(0, TensRange), Slot(0, OnesRange))
  {
  }

  /** So at midnight every column rolls over with the spring. */
  lemma MidnightAllSpring()
    ensures AllAnimate(Clock(Time(0, 0, 0)), RolloverSpec)
  {
    MidnightSlots();
    var s := Slots(Time(0, 0, 0));
    SpringIffZero(s.hourTens);
    SpringIffZero(s.hourOnes);
    SpringIffZero(s.minuteTens);
    SpringIffZero(s.minuteOnes);
    SpringIffZero(s.secondTens);
    SpringIffZero(s.secondOnes);
  }

  /** When the last seconds digit is below 9, the next second changes only
      that digit, by one: its column tweens one cell up and the other five
      inputs are unchanged. */
  lemma SecondOnesTick(t: Time)
    requires Valid(t) && Rem(t.seconds, 10) < 9
    ensures var t' := Time(t.hours, t.minutes, t.seconds + 1);
      && Slots(t') == Slots(t).(secondOnes := Slot(Slots(t).secondOnes.current + 1, OnesRange))
      && Clock(t').secondOnes.animationSpec == TickSpec
      && Clock(t').secondOnes.targetOffset == Clock(t).secondOnes.targetOffset - CellSize
  {
    var t' := Time(t.hours, t.minutes, t.seconds + 1);
    DivUnique(t.seconds + 1, 10, Div(t.seconds, 10), Rem(t.seconds, 10) + 1);
    OffsetStep(Slots(t).secondOnes.current, OnesRange, CellSize);
  }

  /** 12:34:56 to 12:34:57: only the seconds-ones digit moves, from 6 to 7,
      and its column takes the 300 ms tween. */
  lemma IncrementExample()
    ensures Slots(Time(12, 34, 56)).secondOnes.current == 6
    ensures Slots(Time(12, 34, 57)) == Slots(Time(12, 34, 56)).(secondOnes := Slot(7, OnesRange))
    ensures Clock(Time(12, 34, 57)).secondOnes.animationSpec == TickSpec
  {
    SplitTen(56);
    SecondOnesTick(Time(12, 34, 56));
  }

  /** 23:59:59 to 0:00:00: the digits 2 3 5 9 5 9 all drop to 0, the start
      of every range, and every column takes the spring. */
  lemma RolloverExample()
    ensures Slots(Time(23, 59, 59)) ==
      Face(Slot(2, HourTensRange), Slot(3, OnesRange), Slot(5, TensRange),
           Slot(9, OnesRange), Slot(5, TensRange), Slot(9, OnesRange))
    ensures AllAnimate(Clock(Time(0, 0, 0)), RolloverSpec)
  {
    assert Div(23, 10) == 2 && Rem(23, 10) == 3 by {
      SplitTen(23);
    }
    assert Div(59, 10) == 5 && Rem(59, 10) == 9 by {
      SplitTen(59);
    }
    MidnightSlots();
    MidnightAllSpring();
  }
}
