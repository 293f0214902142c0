# ComposeClock digit-column model

ComposeClock is an Android app that shows the time of day as six rolling
digit columns: hour tens and ones, minute tens and ones, and second tens and ones.
Whenever the time changes, each column slides so that its current digit is in
place. A column whose digit sits at the start of its range (it has just rolled
over) moves with a low-bouncy, low-stiffness spring. Any other digit moves with
a 300 ms `LinearOutSlowInEasing` tween. In each column, the cell holding the
current digit is highlighted.

This project models the pure logic behind that picture, from
`app/src/main/java/co/zsmb/composeclock/MainActivity.kt`:

- `kotlin_int.dfy`, module `KotlinInt`: Kotlin's `Int` division and remainder.
  Both truncate toward zero, which is not how Dafny's Euclidean `/` and `%`
  work. The module shows that the two agree on the non-negative numbers the
  clock divides.
- `number_column.dfy`, module `DigitColumn`: `NumberColumn` and `Number`. It
  models the `IntRange` of a column, the centre `mid = (last - first) / 2`
  (Float division, modelled as `real`), the `reset` flag, the chosen animation
  spec, the target offset `size * (mid - current)` and the list of `Number`
  cells with their `active` flags.
- `clock.dfy`, module `ClockFace`: the `Time` data class, what `Calendar` provides
  (its validity predicate), and `Clock`, which splits a time into six
  (digit, range) pairs and builds one column from each.

The cell height `size = 40.dp` is the constant `DigitColumn.CellSize`. The
column function takes the size as a parameter, so the offset lemmas hold
for any positive size.

## Model

| member | source | states |
|---|---|---|
| KotlinInt.Div | app/src/main/java/co/zsmb/composeclock/MainActivity.kt:73-84 | for a positive divisor the quotient truncates toward zero: a - q*b lies in 0..b-1 for a >= 0 and in -(b-1)..0 for a <= 0 |
| KotlinInt.Rem | app/src/main/java/co/zsmb/composeclock/MainActivity.kt:73-84 | Div(a,b)*b + Rem(a,b) == a, and the remainder has the sign of the dividend and is smaller than the divisor in magnitude |
| KotlinInt.DivUnique | app/src/main/java/co/zsmb/composeclock/MainActivity.kt:73-84 | any quotient/remainder pair with those properties is exactly Kotlin's Div and Rem |
| KotlinInt.NonNegativeAgreesWithEuclid | app/src/main/java/co/zsmb/composeclock/MainActivity.kt:73-84 | for a >= 0 and b > 0, Kotlin's `/` and `%` equal Euclidean division |
| DigitColumn.Range.Count | app/src/main/java/co/zsmb/composeclock/MainActivity.kt:118 | `forEach` visits no value exactly when last < first; otherwise it visits last - first + 1 values |
| DigitColumn.Mid | app/src/main/java/co/zsmb/composeclock/MainActivity.kt:96 | mid is exactly half of last - first, with no integer truncation |
| DigitColumn.Cells | app/src/main/java/co/zsmb/composeclock/MainActivity.kt:118-119 | one cell per value of the range; cell i holds first + i; a cell is active exactly when its value equals current |
| DigitColumn.NumberColumn | app/src/main/java/co/zsmb/composeclock/MainActivity.kt:94-121 | reset holds exactly when current == first; the spring is chosen exactly then; a tween lasts 300 ms; offset + size*current == size*mid; the cells are Cells(current, range) |
| DigitColumn.CurveSelection | app/src/main/java/co/zsmb/composeclock/MainActivity.kt:97-110 | the spec is Spring(LowBouncy, Low) when current == first and Tween(300, LinearOutSlowIn) otherwise |
| DigitColumn.OffsetStep | app/src/main/java/co/zsmb/composeclock/MainActivity.kt:96-99 | raising current by one lowers the target offset by exactly size |
| DigitColumn.OffsetBounds | app/src/main/java/co/zsmb/composeclock/MainActivity.kt:96-99 | with first == 0, an in-range current and size > 0: -size*mid <= offset <= size*mid |
| DigitColumn.OffsetZeroIffMid | app/src/main/java/co/zsmb/composeclock/MainActivity.kt:96-99 | for size > 0 the offset is 0 exactly when current equals mid |
| DigitColumn.OffsetExample | app/src/main/java/co/zsmb/composeclock/MainActivity.kt:94-99 | over 0..2 with current 1 and size 40: mid is 1.0 and the offset is 0 |
| DigitColumn.ActiveCount | app/src/main/java/co/zsmb/composeclock/MainActivity.kt:125-127 | the number of highlighted cells is at most the number of cells, and it is 0 exactly when no cell is active |
| DigitColumn.ActiveCountSingle | app/src/main/java/co/zsmb/composeclock/MainActivity.kt:118-119 | a cell list whose only active position is k has exactly one active cell |
| DigitColumn.CellsAscending | app/src/main/java/co/zsmb/composeclock/MainActivity.kt:118 | cell values strictly increase along the list |
| DigitColumn.CellsCoverRange | app/src/main/java/co/zsmb/composeclock/MainActivity.kt:118 | a value appears among the cells exactly when it lies in the range |
| DigitColumn.ExactlyOneActive | app/src/main/java/co/zsmb/composeclock/MainActivity.kt:118-127 | an in-range current highlights exactly one cell, at index current - first, which shows current; an out-of-range current highlights none |
| ClockFace.Slots | app/src/main/java/co/zsmb/composeclock/MainActivity.kt:73-84 | the six columns get the ranges 0..2, 0..9, 0..5, 0..9, 0..5, 0..9, in that order |
| ClockFace.Clock | app/src/main/java/co/zsmb/composeclock/MainActivity.kt:65-86 | each of the six columns resets exactly when its digit is 0, since every range starts at 0 |
| ClockFace.SplitTen | app/src/main/java/co/zsmb/composeclock/MainActivity.kt:73-84 | for n >= 0: Div(n,10)*10 + Rem(n,10) == n, and the ones digit is in 0..9 |
| ClockFace.SlotsInRange | app/src/main/java/co/zsmb/composeclock/MainActivity.kt:73-84 | for a valid time every digit lies in its column's range |
| ClockFace.RoundTrip | app/src/main/java/co/zsmb/composeclock/MainActivity.kt:73-84 | for a valid time, recombining tens*10 + ones gives back hours, minutes and seconds |
| ClockFace.SlotsInjective | app/src/main/java/co/zsmb/composeclock/MainActivity.kt:73-84 | two valid times with the same six digits are equal |
| ClockFace.SplitOfTensOnes | app/src/main/java/co/zsmb/composeclock/MainActivity.kt:73-84 | for tens >= 0 and ones in 0..9, Kotlin's `/ 10` and `% 10` of tens*10 + ones give back tens and ones |
| ClockFace.SplitOfRecompose | app/src/main/java/co/zsmb/composeclock/MainActivity.kt:73-84 | splitting the number spelled by any six in-range digits gives back those digits |
| ClockFace.SpringIffZero | app/src/main/java/co/zsmb/composeclock/MainActivity.kt:73-110 | on a range starting at 0, a column resets exactly when its digit is 0; it then springs, and tweens otherwise |
| ClockFace.ColumnShowsDigit | app/src/main/java/co/zsmb/composeclock/MainActivity.kt:94-127 | on a range starting at 0 with an in-range digit, the column has exactly one active cell, the one at the digit's index showing the digit, and its offset lies within size*mid either side of 0 |
| ClockFace.ColumnsOfValidTime | app/src/main/java/co/zsmb/composeclock/MainActivity.kt:65-127 | for a valid time, all six columns show their digit in that sense |
| ClockFace.OnTheHourSpring | app/src/main/java/co/zsmb/composeclock/MainActivity.kt:73-110 | on the hour the four minute and second digits are 0 and those four columns select the spring |
| ClockFace.MidnightSlots | app/src/main/java/co/zsmb/composeclock/MainActivity.kt:73-84 | 0:00:00 splits into six zero digits over the six ranges |
| ClockFace.MidnightAllSpring | app/src/main/java/co/zsmb/composeclock/MainActivity.kt:73-110 | at 0:00:00 all six columns select the spring |
| ClockFace.SecondOnesTick | app/src/main/java/co/zsmb/composeclock/MainActivity.kt:73-110 | if the seconds-ones digit is below 9, one second later only that digit changes, by +1; its column tweens, and its offset drops by one cell |
| ClockFace.IncrementExample | app/src/main/java/co/zsmb/composeclock/MainActivity.kt:73-110 | from 12:34:56 to 12:34:57 the first five digits are unchanged, the last goes from 6 to 7, and its column tweens |
| ClockFace.RolloverExample | app/src/main/java/co/zsmb/composeclock/MainActivity.kt:73-110 | 23:59:59 has the digits 2 3 5 9 5 9; at 0:00:00 all six columns select the spring |

## Left out

- `MainActivity.onCreate`, `setContent`, `ComposeClockTheme`, `Surface` and `ClockScreen`'s composition: Android lifecycle and UI plumbing.
- `currentTime()` and `Calendar.getInstance()`: a call to the system clock. The model takes a `Time` as input, and `ClockFace.Valid` states what `Calendar` provides.
- The `LaunchedEffect` loop that re-samples the time every 1000 ms: it is periodic scheduling in a coroutine. The tick lemmas compare two samples instead.
- The animations themselves: `animateDpAsState`, `animateColorAsState`, spring physics and easing curves. The model records which spec is chosen, and the named library constants it uses, not their numeric values.
- Float and Dp arithmetic is modelled as exact `real` arithmetic. Float rounding is not modelled.
- 32-bit `Int` overflow is not modelled. Division and remainder by 10 cannot overflow.
- KotlinInt.Div: negative divisors are not modelled, because the clock only divides by 10.
- Layout and rendering: padding, `Spacer`, `clip`, `RoundedCornerShape`, `Text`, font size, and the primary/primaryVariant colours that `Number` picks from its `active` flag. The model keeps the flag (`Cell.active`), not the colour.
- Purity of the column computation (same input, same output) needs no lemma: every member here is a mathematical function.

## Notes on the code

- `reset` compares the current digit with the first value of its range.
  It does not compare it with the previous digit. So the spring is chosen
  whenever a digit is 0, not only right after a wrap from the maximum. At
  midnight, the hour-ones digit goes from 3 to 0 and takes the spring too.
  A digit that stays 0 keeps the same target offset, so nothing visibly
  moves.
- `mid` is half the span `last - first`. It is not the midpoint of the range
  itself. These agree only because every column's range starts at 0, which is
  why `OffsetBounds` requires `first == 0`.
