/**
 One rolling digit column of the clock (`NumberColumn` and `Number`).

 A column shows every value of an integer range as a cell, highlights the
 cell holding the current digit, and slides vertically so that the current
 digit sits where the middle of the range would. The slide uses a bouncy
 spring when the digit is at the start of its range (it has just rolled
 over) and a 300 ms ease-out tween otherwise. Dp and Float quantities are
 modelled as `real`.
 */
module DigitColumn {

  /** A Kotlin `IntRange` `first..last`; it is empty when `last < first`. */
  datatype Range = Range(first: int, last: int)
  {
    predicate Contains(x: int) {
      first <= x <= last
    }

    /** How many values `forEach` visits. */
    function Count(): (n: nat)
      ensures n == 0 <==> last < first
      ensures first <= last ==> first + n - 1 == last
    {
      if last < first then 0 else last - first + 1
    }
  }

  /** The cell height `size = 40.dp`. */
  const CellSize: real := 40.0

  /** The named library constants the column passes to its animations. */
  datatype DampingRatio = DampingRatioLowBouncy
  datatype Stiffness = StiffnessLow
  datatype Easing = LinearOutSlowInEasing

  /** Which animation drives the offset; only the choice is modelled, not
      the interpolation itself. */
  datatype AnimationSpec =
    | Spring(dampingRatio: DampingRatio, stiffness: Stiffness)
    | Tween(durationMillis: int, easing: Easing)

  /** The spring used on a rollover. */
  const RolloverSpec: AnimationSpec := Spring(DampingRatioLowBouncy, StiffnessLow)

  /** The tween used on a normal increment. */
  const TickSpec: AnimationSpec := Tween(300, LinearOutSlowInEasing)

  /** One `Number` cell: whether it is highlighted, and the value it shows. */
  datatype Cell = Cell(active: bool, value: int)

  /** Everything `NumberColumn` derives from its inputs. */
  datatype ColumnState = ColumnState(
    mid: real,
    reset: bool,
    targetOffset: real,
    animationSpec: AnimationSpec,
    cells: seq<Cell>)

  /** `(range.last - range.first) / 2f`: half the span of the range. */
  function Mid(range: Range): (m: real)
    ensures 2.0 * m == range.last as real - range.first as real
  {
    (range.last as real - range.first as real) / 2.0
  }

  /** The cells `range.forEach` emits, in order. */
  function Cells(current: int, range: Range): (cs: seq<Cell>)
    ensures |cs| == range.Count()
    ensures forall i :: 0 <= i < |cs| ==> cs[i].value == range.first + i
    ensures forall i :: 0 <= i < |cs| ==> (cs[i].active <==> cs[i].value == current)
  {
    seq(range.Count(), i => Cell(range.first + i == current, range.first + i))
  }

  /** The column for digit `current` over `range`, with cells `size` high. */
  function NumberColumn(current: int, range: Range, size: real): (c: ColumnState)
    ensures c.mid == Mid(range)
    ensures c.reset <==> current == range.first
    ensures c.animationSpec.Spring? <==> current == range.first
    ensures c.animationSpec.Tween? ==> c.animationSpec.durationMillis == 300
    ensures c.targetOffset + size * current as real == size * c.mid
    ensures c.cells == Cells(current, range)
  {
    var mid := Mid(range);
    var reset := current == range.first;
    ColumnState(
      mid,
      reset,
      size * (mid - current as real),
      if reset then RolloverSpec else TickSpec,
      Cells(current, range))
  }

  // ---------------------------------------------------------------------
  // Animation choice

  /** The spring is chosen exactly on the first value of the range; every
      other value gets the 300 ms ease-out tween. */
  lemma CurveSelection(current: int, range: Range, size: real)
    ensures NumberColumn(current, range, size).animationSpec ==
            if current == range.first then RolloverSpec else TickSpec
  {
  }

  // ---------------------------------------------------------------------
  // Offset

  /** Raising the digit by one slides the column up by exactly one cell. */
  lemma OffsetStep(current: int, range: Range, size: real)
    ensures NumberColumn(current + 1, range, size).targetOffset ==
            NumberColumn(current, range, size).targetOffset - size
  {
    var c0, c1 := NumberColumn(current, range, size), NumberColumn(current + 1, range, size);
    assert size * (current + 1) as real == size * current as real + size;
  }

  /** On a range starting at 0, the offset of an in-range digit lies within
      half the column's height either side of rest. */
  lemma OffsetBounds(current: int, range: Range, size: real)
    requires range.first == 0 && range.Contains(current) && size > 0.0
    ensures var c := NumberColumn(current, range, size);
      -size * c.mid <= c.targetOffset <= size * c.mid
  {
    var c := NumberColumn(current, range, size);
    var m := c.mid;
    assert -m <= m - current as real <= m;
    assert c.targetOffset == size * (m - current as real);
    MulMonotone(size, -m, m - current as real);
    MulMonotone(size, m - current as real, m);
  }

  lemma MulMonotone(k: real, x: real, y: real)
    requires k > 0.0 && x <= y
    ensures k * x <= k * y
  {
    assert k * y - k * x == k * (y - x);
  }

  /** The column is at rest (offset 0) exactly when the digit is the middle
      of the range. */
  lemma OffsetZeroIffMid(current: int, range: Range, size: real)
    requires size > 0.0
    ensures NumberColumn(current, range, size).targetOffset == 0.0 <==>
            current as real == Mid(range)
  {
    var c := NumberColumn(current, range, size);
    assert c.targetOffset == size * (c.mid - current as real);
  }

  /** The hour-tens column at 1 over 0..2 rests at offset 0, its mid being 1. */
  lemma OffsetExample()
    ensures NumberColumn(1, Range(0, 2), CellSize).mid == 1.0
    ensures NumberColumn(1, Range(0, 2), CellSize).targetOffset == 0.0
  {
  }

  // ---------------------------------------------------------------------
  // Cells

  /** How many cells are highlighted. */
  function ActiveCount(cs: seq<Cell>): (n: nat)
    ensures n <= |cs|
    ensures n == 0 <==> forall i :: 0 <= i < |cs| ==> !cs[i].active
  {
    if cs == [] then 0
    else (if cs[0].active then 1 else 0) + ActiveCount(cs[1..])
  }

  /** A list in which only position `k` is highlighted has one active cell. */
  lemma {:induction false} ActiveCountSingle(cs: seq<Cell>, k: int)
    requires 0 <= k < |cs|
    requires forall i :: 0 <= i < |cs| ==> (cs[i].active <==> i == k)
    ensures ActiveCount(cs) == 1
  {
    if k == 0 {
      assert forall i :: 0 <= i < |cs[1..]| ==> !cs[1..][i].active;
    } else {
      assert forall i :: 0 <= i < |cs[1..]| ==> (cs[1..][i].active <==> i == k - 1);
      ActiveCountSingle(cs[1..], k - 1);
    }
  }

  /** The cells hold `first..last` in strictly ascending order. */
  lemma CellsAscending(current: int, range: Range, i: int, j: int)
    requires 0 <= i < j < |Cells(current, range)|
    ensures Cells(current, range)[i].value < Cells(current, range)[j].value
  {
  }

  /** Every value of the range appears among the cells, and nothing else. */
  lemma CellsCoverRange(current: int, range: Range, v: int)
    ensures (exists i :: 0 <= i < |Cells(current, range)| && Cells(current, range)[i].value == v)
            <==> range.Contains(v)
  {
    var cs := Cells(current, range);
    if range.Contains(v) {
      assert cs[v - range.first].value == v;
    }
  }

  /** An in-range digit highlights exactly one cell, the one at its own
      position; an out-of-range digit highlights none. */
  lemma {:induction false} ExactlyOneActive(current: int, range: Range, size: real)
    ensures var cs := NumberColumn(current, range, size).cells;
      ActiveCount(cs) == if range.Contains(current) then 1 else 0
    ensures range.Contains(current) ==>
      NumberColumn(current, range, size).cells[current - range.first] == Cell(true, current)
  {
    var cs := NumberColumn(current, range, size).cells;
    if range.Contains(current) {
      ActiveCountSingle(cs, current - range.first);
    }
  }
}
